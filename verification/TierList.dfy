/** The multi-tier list (`mtlist`): linked lists that share their nodes. Tier 0 links all the nodes in
    descending order; tier `t` links those that use more than `t` tiers. */
module TierList {
  /** The first place after `i` whose node uses more than `t` of the tiers, `used` saying how many each uses. */
  function Next(used: seq<nat>, t: nat, i: nat): (j: nat)
    requires i < |used|
    ensures i < j <= |used| && (forall k :: i < k < j ==> used[k] <= t) && (j < |used| ==> used[j] > t)
    decreases |used| - i
  {
    if i + 1 == |used| || used[i + 1] > t then i + 1 else Next(used, t, i + 1)
  }

  lemma NextIs(used: seq<nat>, t: nat, i: nat, j: nat)
    requires i < j <= |used| && (forall k :: i < k < j ==> used[k] <= t) && (j < |used| ==> used[j] > t)
    ensures Next(used, t, i) == j
  {
  }

  /** The places that tier `t` visits after `i`. */
  function Places(used: seq<nat>, t: nat, i: nat): seq<nat>
    requires i < |used|
    decreases |used| - i
  {
    var j := Next(used, t, i);
    if j == |used| then [] else [j] + Places(used, t, j)
  }

  /** A tier visits the places that are tall enough, each once and in order: a part of what the tier below does. */
  lemma {:induction false} PlacesAre(used: seq<nat>, t: nat, i: nat)
    requires i < |used|
    ensures forall j :: j in Places(used, t, i) <==> i < j < |used| && used[j] > t
    ensures forall a, b :: 0 <= a < b < |Places(used, t, i)| ==> Places(used, t, i)[a] < Places(used, t, i)[b]
    decreases |used| - i
  {
    var j := Next(used, t, i);
    if j < |used| {
      PlacesAre(used, t, j);
      assert forall b :: 1 <= b < |Places(used, t, i)| ==> Places(used, t, i)[b] in Places(used, t, j);
    }
  }

  lemma TiersNest(used: seq<nat>, t: nat)
    requires 0 < |used|
    ensures forall j :: j in Places(used, t + 1, 0) ==> j in Places(used, t, 0)
  {
    PlacesAre(used, t, 0);
    PlacesAre(used, t + 1, 0);
  }

  /** `r` is `s` with `x` put in at place `p`. */
  predicate Puts<T(==)>(s: seq<T>, p: nat, x: T, r: seq<T>) {
    && p <= |s| && |r| == |s| + 1
    && (forall k {:trigger r[k]} :: 0 <= k < |r| ==> r[k] == if k < p then s[k] else if k == p then x else s[k - 1])
  }

  /** What a node using `u` tiers at place `p` does to the links of tier `t`: before it, after it, and its own. */
  lemma NextPutBefore(used: seq<nat>, t: nat, p: nat, u: nat, used': seq<nat>, i: nat)
    requires Puts(used, p, u, used') && i < p
    ensures var j := Next(used, t, i);
      Next(used', t, i) == if j < p then j else if u > t then p else j + 1
  {
    var j := Next(used, t, i);
    assert forall k :: p < k <= j && k < |used'| ==> used'[k] == used[k - 1];
    NextIs(used', t, i, if j < p then j else if u > t then p else j + 1);
  }

  lemma NextPutAfter(used: seq<nat>, t: nat, p: nat, u: nat, used': seq<nat>, i: nat)
    requires Puts(used, p, u, used') && p <= i < |used|
    ensures Next(used', t, i + 1) == Next(used, t, i) + 1
  {
    var j := Next(used, t, i);
    assert forall k :: p < k <= j + 1 && k < |used'| ==> used'[k] == used[k - 1];
    NextIs(used', t, i + 1, j + 1);
  }

  lemma NextPutNew(used: seq<nat>, t: nat, p: nat, u: nat, used': seq<nat>, i: nat)
    requires Puts(used, p, u, used') && i < p <= Next(used, t, i)
    ensures Next(used', t, p) == Next(used, t, i) + 1
  {
    var j := Next(used, t, i);
    assert forall k :: p < k <= j + 1 && k < |used'| ==> used'[k] == used[k - 1];
    NextIs(used', t, p, j + 1);
  }

  class Node {
    const el: int
    var used: nat
    const next: array<Node?>

    constructor (el: int, tiers: nat)
      ensures this.el == el && fresh(next) && next.Length == tiers
    {
      this.el := el;
      next := new Node?[tiers];
    }
  }

  /** The node at place `j`, or null past the end. */
  function Ref(nodes: seq<Node>, j: nat): Node? {
    if j < |nodes| then nodes[j] else null
  }

  ghost function Slots(nodes: seq<Node>): set<object> {
    set n | n in nodes :: n.next
  }

  /** Every node has a slot for each tier, and uses one at least. */
  ghost predicate Fits(tiers: nat, nodes: seq<Node>, used: seq<nat>) {
    && 0 < tiers && 0 < |nodes| == |used|
    && (forall i :: 0 <= i < |nodes| ==> nodes[i].next.Length == tiers && 0 < used[i] <= tiers)
  }

  /** The nodes, the head among them, are apart, and so are their slots. */
  ghost predicate Apart(nodes: seq<Node>) {
    forall i, j :: 0 <= i < j < |nodes| ==> nodes[i] != nodes[j] && nodes[i].next != nodes[j].next
  }

  /** Tier `t` links the nodes that use it, in order. */
  ghost predicate Tier(tiers: nat, nodes: seq<Node>, used: seq<nat>, t: nat)
    requires Fits(tiers, nodes, used) && t < tiers
    reads Slots(nodes)
  {
    forall i {:trigger Next(used, t, i)} :: 0 <= i < |nodes| && used[i] > t ==> nodes[i].next[t] == Ref(nodes, Next(used, t, i))
  }

  /** The elements descend. */
  ghost predicate Sorted(nodes: seq<Node>) {
    forall i, j :: 0 < i < j < |nodes| ==> nodes[i].el >= nodes[j].el
  }

  /** Place `p` divides the elements greater than `v` from the others. */
  ghost predicate Divides(nodes: seq<Node>, p: nat, v: int) {
    && 0 < p <= |nodes|
    && (forall j :: 0 < j < p ==> v < nodes[j].el)
    && (forall j :: p <= j < |nodes| ==> nodes[j].el <= v)
  }

  lemma HasDivide(nodes: seq<Node>, v: int, n: nat) returns (p: nat)
    requires Sorted(nodes) && 0 < n <= |nodes| && forall j :: n <= j < |nodes| ==> nodes[j].el <= v
    ensures Divides(nodes, p, v)
  {
    p := n;
    while p > 1 && nodes[p - 1].el <= v
      invariant 0 < p <= |nodes| && forall j :: p <= j < |nodes| ==> nodes[j].el <= v
    {
      p := p - 1;
    }
  }

  /** Only one node before `p` reaches `p` or beyond in tier `t`. */
  lemma OneReaches(used: seq<nat>, t: nat, p: nat, i: nat, m: nat)
    requires i < p <= |used| && m < p && m != i && used[i] > t && used[m] > t && p <= Next(used, t, i)
    ensures Next(used, t, m) < p
  {
  }

  /** The links of tier `t` once `z` has been linked in after node `i`, or left out if it uses too few tiers. */
  ghost predicate Linked(tiers: nat, nodes: seq<Node>, used: seq<nat>, t: nat, z: Node, u: nat, i: nat)
    requires Fits(tiers, nodes, used) && t < tiers && i < |nodes| && z.next.Length == tiers
    reads Slots(nodes), z.next
  {
    && (forall m {:trigger Next(used, t, m)} :: 0 <= m < |nodes| && m != i && used[m] > t ==> nodes[m].next[t] == Ref(nodes, Next(used, t, m)))
    && nodes[i].next[t] == (if u > t then z else Ref(nodes, Next(used, t, i)))
    && (u > t ==> z.next[t] == Ref(nodes, Next(used, t, i)))
  }

  lemma RefPut(nodes: seq<Node>, p: nat, z: Node, nodes': seq<Node>, j: nat)
    requires Puts(nodes, p, z, nodes')
    ensures Ref(nodes', if j < p then j else j + 1) == Ref(nodes, j) && Ref(nodes', p) == z
  {
  }

  lemma TierPut(tiers: nat, nodes: seq<Node>, used: seq<nat>, t: nat, z: Node, p: nat, u: nat, i: nat,
                nodes': seq<Node>, used': seq<nat>)
    requires Fits(tiers, nodes, used) && Fits(tiers, nodes', used') && t < tiers && z.next.Length == tiers
    requires Puts(nodes, p, z, nodes') && Puts(used, p, u, used')
    requires i < p && used[i] > t && p <= Next(used, t, i) && Linked(tiers, nodes, used, t, z, u, i)
    ensures Tier(tiers, nodes', used', t)
  {
    forall m | 0 <= m < |nodes'| && used'[m] > t
      ensures nodes'[m].next[t] == Ref(nodes', Next(used', t, m))
    {
      TierPutAt(tiers, nodes, used, t, z, p, u, i, nodes', used', m);
    }
  }

  lemma TierPutAt(tiers: nat, nodes: seq<Node>, used: seq<nat>, t: nat, z: Node, p: nat, u: nat, i: nat,
                  nodes': seq<Node>, used': seq<nat>, m: nat)
    requires Fits(tiers, nodes, used) && t < tiers && z.next.Length == tiers
    requires Puts(nodes, p, z, nodes') && Puts(used, p, u, used')
    requires i < p && used[i] > t && p <= Next(used, t, i) && Linked(tiers, nodes, used, t, z, u, i)
    requires m < |nodes'| && used'[m] > t && nodes'[m].next.Length == tiers
    ensures nodes'[m].next[t] == Ref(nodes', Next(used', t, m))
  {
    if m < p {
      TierPutBefore(tiers, nodes, used, t, z, p, u, i, nodes', used', m);
      assert nodes'[m] == nodes[m];
    } else if m == p {
      TierPutNew(tiers, nodes, used, t, z, p, u, i, nodes', used');
      assert nodes'[m] == z;
    } else {
      TierPutAfter(tiers, nodes, used, t, z, p, u, i, nodes', used', m - 1);
      assert nodes'[m] == nodes[m - 1];
    }
  }

  lemma TierPutAfter(tiers: nat, nodes: seq<Node>, used: seq<nat>, t: nat, z: Node, p: nat, u: nat, i: nat,
                     nodes': seq<Node>, used': seq<nat>, m: nat)
    requires Fits(tiers, nodes, used) && t < tiers && z.next.Length == tiers
    requires Puts(nodes, p, z, nodes') && Puts(used, p, u, used') && p <= m < |nodes| && used[m] > t
    requires i < p && Linked(tiers, nodes, used, t, z, u, i)
    ensures nodes[m].next[t] == Ref(nodes', Next(used', t, m + 1))
  {
    var j := Next(used, t, m);
    assert nodes[m].next[t] == Ref(nodes, j);
    NextPutAfter(used, t, p, u, used', m);
    RefPut(nodes, p, z, nodes', j);
  }

  lemma TierPutNew(tiers: nat, nodes: seq<Node>, used: seq<nat>, t: nat, z: Node, p: nat, u: nat, i: nat,
                   nodes': seq<Node>, used': seq<nat>)
    requires Fits(tiers, nodes, used) && t < tiers && z.next.Length == tiers && u > t
    requires Puts(nodes, p, z, nodes') && Puts(used, p, u, used')
    requires i < p && used[i] > t && p <= Next(used, t, i) && Linked(tiers, nodes, used, t, z, u, i)
    ensures z.next[t] == Ref(nodes', Next(used', t, p))
  {
    NextPutNew(used, t, p, u, used', i);
    RefPut(nodes, p, z, nodes', Next(used, t, i));
  }

  lemma TierPutBefore(tiers: nat, nodes: seq<Node>, used: seq<nat>, t: nat, z: Node, p: nat, u: nat, i: nat,
                      nodes': seq<Node>, used': seq<nat>, m: nat)
    requires Fits(tiers, nodes, used) && t < tiers && z.next.Length == tiers
    requires Puts(nodes, p, z, nodes') && Puts(used, p, u, used') && m < p && used[m] > t
    requires i < p && used[i] > t && p <= Next(used, t, i) && Linked(tiers, nodes, used, t, z, u, i)
    ensures nodes[m].next[t] == Ref(nodes', Next(used', t, m))
  {
    RefPut(nodes, p, z, nodes', Next(used, t, m));
    NextPutBefore(used, t, p, u, used', m);
    if m != i {
      OneReaches(used, t, p, i, m);
    }
  }

  /** The links of tier `t` once the node at place `p` has been unlinked from node `i` before it. */
  ghost predicate Unlinked(tiers: nat, nodes: seq<Node>, used: seq<nat>, t: nat, p: nat, i: nat)
    requires Fits(tiers, nodes, used) && t < tiers && i < |nodes| && p < |nodes|
    reads Slots(nodes)
  {
    && (forall m {:trigger Next(used, t, m)} :: 0 <= m < |nodes| && m != i && m != p && used[m] > t ==> nodes[m].next[t] == Ref(nodes, Next(used, t, m)))
    && nodes[i].next[t] == (if used[p] > t then Ref(nodes, Next(used, t, p)) else Ref(nodes, Next(used, t, i)))
  }

  lemma TierCut(tiers: nat, nodes: seq<Node>, used: seq<nat>, t: nat, p: nat, i: nat, nodes': seq<Node>, used': seq<nat>)
    requires Fits(tiers, nodes, used) && Fits(tiers, nodes', used') && t < tiers && i < p < |nodes|
    requires Puts(nodes', p, nodes[p], nodes) && Puts(used', p, used[p], used)
    requires used[i] > t && p <= Next(used, t, i) && Unlinked(tiers, nodes, used, t, p, i)
    ensures Tier(tiers, nodes', used', t)
  {
    forall m | 0 <= m < |nodes'| && used'[m] > t
      ensures nodes'[m].next[t] == Ref(nodes', Next(used', t, m))
    {
      TierCutOld(tiers, nodes, used, t, p, i, nodes', used', m);
    }
  }

  lemma TierCutOld(tiers: nat, nodes: seq<Node>, used: seq<nat>, t: nat, p: nat, i: nat,
                   nodes': seq<Node>, used': seq<nat>, m: nat)
    requires Fits(tiers, nodes, used) && t < tiers && i < p < |nodes|
    requires Puts(nodes', p, nodes[p], nodes) && Puts(used', p, used[p], used)
    requires used[i] > t && p <= Next(used, t, i) && Unlinked(tiers, nodes, used, t, p, i)
    requires m < |nodes'| && used'[m] > t && nodes'[m].next.Length == tiers
    ensures nodes'[m].next[t] == Ref(nodes', Next(used', t, m))
  {
    if m < p {
      assert nodes'[m] == nodes[m] && used'[m] == used[m];
      TierCutBefore(tiers, nodes, used, t, p, i, nodes', used', m);
    } else {
      TierCutAfter(tiers, nodes, used, t, p, i, nodes', used', m);
    }
  }

  lemma TierCutBefore(tiers: nat, nodes: seq<Node>, used: seq<nat>, t: nat, p: nat, i: nat,
                      nodes': seq<Node>, used': seq<nat>, m: nat)
    requires Fits(tiers, nodes, used) && t < tiers && i < p < |nodes|
    requires Puts(nodes', p, nodes[p], nodes) && Puts(used', p, used[p], used)
    requires used[i] > t && p <= Next(used, t, i) && Unlinked(tiers, nodes, used, t, p, i) && m < p && used[m] > t
    ensures nodes[m].next[t] == Ref(nodes', Next(used', t, m))
  {
    NextPutBefore(used', t, p, used[p], used, m);
    var j, k := Next(used', t, m), Next(used, t, m);
    if m != i {
      OneReaches(used, t, p, i, m);
      assert k == j < p && nodes[m].next[t] == Ref(nodes, k) == Ref(nodes', k);
    } else {
      TierCutPred(tiers, nodes, used, t, p, i, nodes', used', j);
    }
  }

  lemma TierCutPred(tiers: nat, nodes: seq<Node>, used: seq<nat>, t: nat, p: nat, i: nat,
                    nodes': seq<Node>, used': seq<nat>, j: nat)
    requires Fits(tiers, nodes, used) && t < tiers && i < p < |nodes|
    requires Puts(nodes', p, nodes[p], nodes) && Puts(used', p, used[p], used) && j == Next(used', t, i)
    requires used[i] > t && p <= Next(used, t, i) && Unlinked(tiers, nodes, used, t, p, i)
    requires Next(used, t, i) == if j < p then j else if used[p] > t then p else j + 1
    ensures nodes[i].next[t] == Ref(nodes', j)
  {
    RefPut(nodes', p, nodes[p], nodes, j);
    if used[p] > t {
      NextPutNew(used', t, p, used[p], used, i);
    }
  }

  lemma TierCutAfter(tiers: nat, nodes: seq<Node>, used: seq<nat>, t: nat, p: nat, i: nat,
                     nodes': seq<Node>, used': seq<nat>, m: nat)
    requires Fits(tiers, nodes, used) && t < tiers && i < p < |nodes|
    requires Puts(nodes', p, nodes[p], nodes) && Puts(used', p, used[p], used) && Unlinked(tiers, nodes, used, t, p, i)
    requires p <= m < |nodes'| && used'[m] > t && nodes'[m].next.Length == tiers
    ensures nodes'[m].next[t] == Ref(nodes', Next(used', t, m))
  {
    assert nodes[m + 1] == nodes'[m] && used[m + 1] == used'[m];
    var j := Next(used', t, m);
    NextPutAfter(used', t, p, used[p], used, m);
    RefPut(nodes', p, nodes[p], nodes, j);
  }

  lemma PutsAre<T>(s: seq<T>, p: nat, x: T, r: seq<T>)
    requires p <= |s| && r == s[..p] + [x] + s[p..]
    ensures Puts(s, p, x, r)
  {
  }

  lemma PutApart(nodes: seq<Node>, p: nat, z: Node, nodes': seq<Node>)
    requires Puts(nodes, p, z, nodes') && Apart(nodes)
    requires forall i :: 0 <= i < |nodes| ==> nodes[i] != z && nodes[i].next != z.next
    ensures Apart(nodes')
  {
  }

  lemma PutSorted(nodes: seq<Node>, p: nat, z: Node, nodes': seq<Node>)
    requires Puts(nodes, p, z, nodes') && Sorted(nodes) && Divides(nodes, p, z.el)
    ensures Sorted(nodes')
  {
  }

  lemma CutPuts<T>(s: seq<T>, p: nat, r: seq<T>)
    requires p < |s| && r == s[..p] + s[p + 1..]
    ensures Puts(r, p, s[p], s)
    ensures forall i {:trigger r[i]} :: 0 <= i < |r| ==> r[i] == s[if i < p then i else i + 1]
  {
  }

  lemma CutApart(nodes: seq<Node>, p: nat, nodes': seq<Node>)
    requires p < |nodes| == |nodes'| + 1 && Apart(nodes)
    requires forall i {:trigger nodes'[i]} :: 0 <= i < |nodes'| ==> nodes'[i] == nodes[if i < p then i else i + 1]
    ensures Apart(nodes')
  {
  }

  lemma CutSorted(nodes: seq<Node>, p: nat, nodes': seq<Node>)
    requires 0 < p < |nodes| == |nodes'| + 1 && Sorted(nodes)
    requires forall i {:trigger nodes'[i]} :: 0 <= i < |nodes'| ==> nodes'[i] == nodes[if i < p then i else i + 1]
    ensures Sorted(nodes')
  {
  }

  class List {
    const tiers: nat
    const head: Node

    /** The head and the nodes in order, and how many tiers each uses. */
    ghost var nodes: seq<Node>
    ghost var used: seq<nat>

    ghost predicate Shape()
      reads this, nodes
    {
      && Fits(tiers, nodes, used) && Apart(nodes) && nodes[0] == head && used[0] == tiers
      && (forall i :: 0 < i < |nodes| ==> nodes[i].used == used[i])
    }

    ghost predicate Valid()
      reads this, nodes, Slots(nodes)
    {
      Shape() && Sorted(nodes) && forall t: nat :: t < tiers ==> Tier(tiers, nodes, used, t)
    }

    lemma TierOf(t: nat)
      requires Valid() && t < tiers
      ensures Tier(tiers, nodes, used, t)
    {
      var linked := Tier(tiers, nodes, used, t);
      assert linked;
    }

    constructor (tiers: nat)
      requires tiers > 0
      ensures Valid() && nodes == [head] && this.tiers == tiers
    {
      this.tiers := tiers;
      var h := new Node(0, tiers);
      head, nodes, used := h, [h], [tiers];
      new;
      for t := 0 to tiers
        modifies head.next
        invariant forall k :: 0 <= k < t ==> head.next[k] == null
      {
        head.next[t] := null;
      }
    }

    /** Links `z` in, with `u` tiers, before the first element that is not greater. */
    method Insert(z: Node, u: nat) returns (ghost p: nat)
      requires Valid() && 0 < u <= tiers && z !in nodes && z.next !in Slots(nodes) && z.next.Length == tiers
      modifies this, z, z.next, Slots(nodes)
      ensures Valid() && Divides(old(nodes), p, z.el) && nodes == old(nodes)[..p] + [z] + old(nodes)[p..]
    {
      p := HasDivide(nodes, z.el, |nodes|);
      ghost var nodes', used' := nodes[..p] + [z] + nodes[p..], used[..p] + [u] + used[p..];
      NodesPut(nodes, used, z, u, p, nodes', used');
      z.used := u;
      LinkTiers(z, u, p, nodes', used');
      Rename(nodes', used');
    }

    lemma NodesPut(nodes: seq<Node>, used: seq<nat>, z: Node, u: nat, p: nat, nodes': seq<Node>, used': seq<nat>)
      requires Fits(tiers, nodes, used) && Apart(nodes) && Sorted(nodes) && Divides(nodes, p, z.el)
      requires 0 < u <= tiers && z !in nodes && z.next !in Slots(nodes) && z.next.Length == tiers
      requires nodes' == nodes[..p] + [z] + nodes[p..] && used' == used[..p] + [u] + used[p..]
      ensures Puts(nodes, p, z, nodes') && Puts(used, p, u, used')
      ensures Fits(tiers, nodes', used') && Apart(nodes') && Sorted(nodes')
    {
      PutsAre(nodes, p, z, nodes');
      PutsAre(used, p, u, used');
      assert forall i :: 0 <= i < |nodes| ==> nodes[i] in nodes && nodes[i].next in Slots(nodes);
      PutApart(nodes, p, z, nodes');
      PutSorted(nodes, p, z, nodes');
    }

    /** The nodes are `nodes'` from here on. */
    ghost method Rename(nodes': seq<Node>, used': seq<nat>)
      requires Fits(tiers, nodes', used') && Apart(nodes') && Sorted(nodes') && nodes'[0] == head && used'[0] == tiers
      requires forall i :: 0 < i < |nodes'| ==> nodes'[i].used == used'[i]
      requires forall t: nat :: t < tiers ==> Tier(tiers, nodes', used', t)
      modifies this`nodes, this`used
      ensures Valid() && nodes == nodes' && used == used'
    {
      var self: object := this;
      assert self !in Slots(nodes');
      nodes, used := nodes', used';
      assert forall t: nat :: t < tiers ==> Tier(tiers, nodes, used, t);
    }

    /** The loop of `insert` over the tiers. */
    method LinkTiers(z: Node, u: nat, ghost p: nat, ghost nodes': seq<Node>, ghost used': seq<nat>)
      requires Valid() && 0 < u <= tiers && z.next !in Slots(nodes) && z.next.Length == tiers
      requires Divides(nodes, p, z.el) && Puts(nodes, p, z, nodes') && Puts(used, p, u, used') && Fits(tiers, nodes', used')
      modifies z.next, Slots(nodes)
      ensures forall t: nat :: t < tiers ==> Tier(tiers, nodes', used', t)
    {
      var b, t: nat := head, tiers;
      ghost var i: nat := 0;
      while t > 0
        invariant t <= tiers && i < p && b == nodes[i] && used[i] >= t && (i > 0 ==> z.el < b.el)
        invariant forall k: nat :: k < t ==> Tier(tiers, nodes, used, k)
        invariant forall k: nat :: t <= k < tiers ==> Tier(tiers, nodes', used', k)
      {
        t := t - 1;
        assert Tier(tiers, nodes, used, t);
        while b.next[t] != null && z.el < b.next[t].el
          invariant i < p && b == nodes[i] && used[i] > t && (i > 0 ==> z.el < b.el)
          decreases |nodes| - i
        {
          i := Next(used, t, i);
          b := b.next[t];
        }
        assert p <= Next(used, t, i);
        LinkTier(z, u, t, b, i, p, nodes', used');
      }
    }

    /** One turn of that loop, at the node `b` before `z` in tier `t`. */
    method LinkTier(z: Node, u: nat, t: nat, b: Node, ghost i: nat, ghost p: nat, ghost nodes': seq<Node>, ghost used': seq<nat>)
      requires Shape() && z.next !in Slots(nodes) && z.next.Length == tiers && t < tiers
      requires i < p <= |nodes| && b == nodes[i] && used[i] > t && p <= Next(used, t, i)
      requires Puts(nodes, p, z, nodes') && Puts(used, p, u, used') && Fits(tiers, nodes', used')
      requires forall k: nat :: k <= t ==> Tier(tiers, nodes, used, k)
      requires forall k: nat :: t < k < tiers ==> Tier(tiers, nodes', used', k)
      modifies z.next, b.next
      ensures forall k: nat :: k < t ==> Tier(tiers, nodes, used, k)
      ensures forall k: nat :: t <= k < tiers ==> Tier(tiers, nodes', used', k)
    {
      assert b in nodes && b.next in Slots(nodes);
      assert Tier(tiers, nodes, used, t);
      if t < u {
        z.next[t] := b.next[t];
        b.next[t] := z;
      }
      forall k: nat | k < tiers && k != t
        ensures k < t ==> Tier(tiers, nodes, used, k)
        ensures k > t ==> Tier(tiers, nodes', used', k)
      {
        assert k < t ==> old(Tier(tiers, nodes, used, k));
        assert k > t ==> old(Tier(tiers, nodes', used', k));
      }
      forall m | 0 <= m < |nodes| && m != i && used[m] > t
        ensures nodes[m].next[t] == Ref(nodes, Next(used, t, m))
      {
        assert nodes[m] in nodes && nodes[m].next in Slots(nodes);
        assert old(Tier(tiers, nodes, used, t));
      }
      TierPut(tiers, nodes, used, t, z, p, u, i, nodes', used');
    }

    /** `find_before`: the last node greater than `v`, or the head. */
    method FindBefore(v: int) returns (b: Node, ghost p: nat)
      requires Valid()
      ensures Valid() && Divides(nodes, p, v) && b == nodes[p - 1]
    {
      p := HasDivide(nodes, v, |nodes|);
      b := head;
      var t: nat := tiers;
      ghost var i: nat := 0;
      while t > 0
        invariant t <= tiers && i < p && b == nodes[i] && used[i] >= t && used[i] > 0 && (i > 0 ==> v < b.el)
        invariant Valid() && (t == 0 ==> i + 1 == p)
      {
        t := t - 1;
        TierOf(t);
        while b.next[t] != null && v < b.next[t].el
          invariant i < p && b == nodes[i] && used[i] > t && (i > 0 ==> v < b.el)
          decreases |nodes| - i
        {
          i := Next(used, t, i);
          b := b.next[t];
        }
        assert t == 0 ==> Next(used, t, i) == i + 1;
      }
    }

    /** `find`: the first node with element `v`, or null. */
    method Find(v: int) returns (r: Node?)
      requires Valid()
      ensures r == null ==> forall i :: 0 < i < |nodes| ==> nodes[i].el != v
      ensures r != null ==> exists i :: 0 < i < |nodes| && r == nodes[i] && r.el == v && forall j :: 0 < j < i ==> nodes[j].el > v
    {
      var b;
      ghost var p;
      b, p := FindBefore(v);
      TierOf(0);
      assert Next(used, 0, p - 1) == p;
      r := b.next[0];
      if r != null && r.el < v {
        r := null;
      }
    }

    /** `before[t]` is the node before place `p` in tier `t`; `at` says where these nodes are. */
    ghost predicate Precedes(before: seq<Node>, at: seq<nat>, p: nat, t: nat)
      requires t <= |before|
      reads this`nodes, this`used
    {
      && |before| == |at| == tiers && |used| == |nodes| && p <= |nodes|
      && forall k: nat :: t <= k < tiers ==>
        at[k] < p && before[k] == nodes[at[k]] && used[at[k]] > k && p <= Next(used, k, at[k])
    }

    /** `_find_pointers_before`: the slots that lead past the nodes greater than `v`, one a tier; a slot is given
        by its node. */
    method FindPointersBefore(v: int, before: array<Node>) returns (b: Node, ghost p: nat, ghost at: seq<nat>)
      requires Valid() && before.Length == tiers && before !in Slots(nodes)
      modifies before
      ensures Valid() && Divides(nodes, p, v) && b == nodes[p - 1] && Precedes(before[..], at, p, 0)
    {
      p := HasDivide(nodes, v, |nodes|);
      at := seq(tiers, _ => 0);
      b := head;
      var t: nat := tiers;
      ghost var i: nat := 0;
      while t > 0
        invariant t <= tiers && i < p && b == nodes[i] && used[i] >= t && used[i] > 0 && (i > 0 ==> v < b.el)
        invariant t == 0 ==> i + 1 == p
        invariant Valid() && Precedes(before[..], at, p, t)
      {
        t := t - 1;
        TierOf(t);
        while b.next[t] != null && v < b.next[t].el
          invariant i < p && b == nodes[i] && used[i] > t && (i > 0 ==> v < b.el)
          decreases |nodes| - i
        {
          i := Next(used, t, i);
          b := b.next[t];
        }
        assert t == 0 ==> Next(used, t, i) == i + 1;
        Note(before, t, b);
        at := at[t := i];
      }
    }

    method Note(before: array<Node>, t: nat, b: Node)
      requires Valid() && before !in Slots(nodes) && t < before.Length
      modifies before
      ensures Valid() && before[..] == old(before[..])[t := b]
    {
      before[t] := b;
    }

    /** `_remove_with_pointers`: unlinks the node `r` at place `p`. */
    method RemoveWithPointers(r: Node, before: array<Node>, ghost p: nat, ghost at: seq<nat>)
      requires Valid() && 0 < p < |nodes| && r == nodes[p]
      requires before.Length == tiers && before !in Slots(nodes) && Precedes(before[..], at, p, 0)
      modifies this`nodes, this`used, Slots(nodes)
      ensures Valid() && nodes == old(nodes)[..p] + old(nodes)[p + 1..]
    {
      ghost var nodes', used' := nodes[..p] + nodes[p + 1..], used[..p] + used[p + 1..];
      NodesCut(nodes, used, p, nodes', used');
      UnlinkTiers(r, before, p, at, nodes', used');
      Rename(nodes', used');
    }

    lemma NodesCut(nodes: seq<Node>, used: seq<nat>, p: nat, nodes': seq<Node>, used': seq<nat>)
      requires Fits(tiers, nodes, used) && Apart(nodes) && Sorted(nodes) && 0 < p < |nodes|
      requires nodes' == nodes[..p] + nodes[p + 1..] && used' == used[..p] + used[p + 1..]
      ensures Puts(nodes', p, nodes[p], nodes) && Puts(used', p, used[p], used)
      ensures Fits(tiers, nodes', used') && Apart(nodes') && Sorted(nodes')
      ensures forall i {:trigger nodes'[i]} :: 0 <= i < |nodes'| ==>
        nodes'[i] == nodes[if i < p then i else i + 1] && used'[i] == used[if i < p then i else i + 1]
    {
      CutPuts(nodes, p, nodes');
      CutPuts(used, p, used');
      CutApart(nodes, p, nodes');
      CutSorted(nodes, p, nodes');
    }

    method UnlinkTiers(r: Node, before: array<Node>, ghost p: nat, ghost at: seq<nat>, ghost nodes': seq<Node>, ghost used': seq<nat>)
      requires Valid() && 0 < p < |nodes| && r == nodes[p]
      requires before.Length == tiers && before !in Slots(nodes) && Precedes(before[..], at, p, 0)
      requires Puts(nodes', p, nodes[p], nodes) && Puts(used', p, used[p], used) && Fits(tiers, nodes', used')
      modifies Slots(nodes)
      ensures forall t: nat :: t < tiers ==> Tier(tiers, nodes', used', t)
    {
      var t: nat := tiers;
      while t > 0
        invariant t <= tiers && Precedes(before[..], at, p, 0)
        invariant forall k: nat :: k < t ==> Tier(tiers, nodes, used, k)
        invariant forall k: nat :: t <= k < tiers ==> Tier(tiers, nodes', used', k)
      {
        t := t - 1;
        UnlinkTier(r, t, before[t], at[t], p, nodes', used');
      }
    }

    method UnlinkTier(r: Node, t: nat, b: Node, ghost i: nat, ghost p: nat, ghost nodes': seq<Node>, ghost used': seq<nat>)
      requires Shape() && 0 < p < |nodes| && r == nodes[p] && t < tiers
      requires i < p && b == nodes[i] && used[i] > t && p <= Next(used, t, i)
      requires Puts(nodes', p, nodes[p], nodes) && Puts(used', p, used[p], used) && Fits(tiers, nodes', used')
      requires forall k: nat :: k <= t ==> Tier(tiers, nodes, used, k)
      requires forall k: nat :: t < k < tiers ==> Tier(tiers, nodes', used', k)
      modifies b.next
      ensures forall k: nat :: k < t ==> Tier(tiers, nodes, used, k)
      ensures forall k: nat :: t <= k < tiers ==> Tier(tiers, nodes', used', k)
    {
      assert Tier(tiers, nodes, used, t);
      if t < r.used {
        b.next[t] := r.next[t];
      }
      forall k: nat | k < tiers && k != t
        ensures k < t ==> Tier(tiers, nodes, used, k)
        ensures k > t ==> Tier(tiers, nodes', used', k)
      {
        assert k < t ==> old(Tier(tiers, nodes, used, k));
        assert k > t ==> old(Tier(tiers, nodes', used', k));
      }
      forall m | 0 <= m < |nodes| && m != i && m != p && used[m] > t
        ensures nodes[m].next[t] == Ref(nodes, Next(used, t, m))
      {
        assert old(Tier(tiers, nodes, used, t));
      }
      TierCut(tiers, nodes, used, t, p, i, nodes', used');
    }

    /** Removes the first element that is not greater than `v`, if there is one. */
    method Remove(v: int) returns (r: Node?, ghost p: nat)
      requires Valid()
      modifies this`nodes, this`used, Slots(nodes)
      ensures Valid() && Divides(old(nodes), p, v)
      ensures if p == |old(nodes)| then r == null && nodes == old(nodes)
              else r == old(nodes)[p] && nodes == old(nodes)[..p] + old(nodes)[p + 1..]
    {
      var before := new Node[tiers](_ => head);
      var b;
      ghost var at;
      b, p, at := FindPointersBefore(v, before);
      TierOf(0);
      assert Next(used, 0, p - 1) == p;
      r := b.next[0];
      if r != null {
        RemoveWithPointers(r, before, p, at);
      }
    }
  }
}
