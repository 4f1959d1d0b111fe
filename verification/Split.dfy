/** Addressing an element by (cluster, offset).

    The tree, its leaves and the bit vectors all address element `x` as offset `x % k` of part `x / k`.
    `High`, `Low` and `Join` are these operations written by repeated subtraction and addition, which
    keeps non-linear arithmetic out of every proof that uses them; `DivMod` says that they are the
    division, remainder and multiply-add of the program.
  */
module Split {
  /** The part that holds `x`: `x / k`. */
  function High(x: nat, k: nat): nat
    requires k > 0
  {
    if x < k then 0 else 1 + High(x - k, k)
  }

  /** The offset of `x` in its part: `x % k`. */
  function Low(x: nat, k: nat): nat
    requires k > 0
  {
    if x < k then x else Low(x - k, k)
  }

  /** The element at offset `e` of part `c`: `c * k + e`. */
  function Join(c: nat, e: nat, k: nat): nat {
    if c == 0 then e else k + Join(c - 1, e, k)
  }

  lemma {:induction false} JoinIsMulAdd(c: nat, e: nat, k: nat)
    ensures Join(c, e, k) == c * k + e
  {
    if c > 0 {
      JoinIsMulAdd(c - 1, e, k);
      assert (c - 1) * k + k == c * k;
    }
  }

  lemma {:induction false} JoinSplit(x: nat, k: nat)
    requires k > 0
    ensures Low(x, k) < k
    ensures Join(High(x, k), Low(x, k), k) == x
  {
    if x >= k {
      JoinSplit(x - k, k);
    }
  }

  lemma {:induction false} SplitJoin(c: nat, e: nat, k: nat)
    requires e < k
    ensures High(Join(c, e, k), k) == c
    ensures Low(Join(c, e, k), k) == e
  {
    if c > 0 {
      SplitJoin(c - 1, e, k);
    }
  }

  /** Elements are ordered as (part, offset) pairs. */
  lemma {:induction false} SplitOrder(x: nat, y: nat, k: nat)
    requires k > 0
    ensures x < y <==> High(x, k) < High(y, k) || (High(x, k) == High(y, k) && Low(x, k) < Low(y, k))
  {
    if x >= k && y >= k {
      SplitOrder(x - k, y - k, k);
    } else if x >= k {
      JoinSplit(x, k);
    } else if y >= k {
      JoinSplit(y, k);
    }
  }

  lemma {:induction false} SplitBound(x: nat, c: nat, k: nat)
    requires k > 0
    ensures x < Join(c, 0, k) <==> High(x, k) < c
  {
    if c > 0 && x >= k {
      SplitBound(x - k, c - 1, k);
    }
  }

  lemma MulMono(a: int, b: int, k: nat)
    requires a <= b
    ensures a * k <= b * k
  {
    assert (b - a) * k >= 0;
  }

  lemma QuotientUnique(q: int, r: int, p: int, s: int, k: nat)
    requires q * k + r == p * k + s
    requires 0 <= r < k && 0 <= s < k
    ensures q == p && r == s
  {
    if q < p {
      MulMono(q + 1, p, k);
    } else if p < q {
      MulMono(p + 1, q, k);
    }
  }

  /** The three operations are the program's `x / k`, `x % k` and `c * k + e`. */
  lemma DivMod(x: nat, k: nat)
    requires k > 0
    ensures High(x, k) == x / k && Low(x, k) == x % k
  {
    JoinSplit(x, k);
    JoinIsMulAdd(High(x, k), Low(x, k), k);
    QuotientUnique(High(x, k), Low(x, k), x / k, x % k, k);
  }

  /** Everything above, for one part size, in the form the other modules use. */
  lemma SplitFacts(k: nat)
    requires k > 0
    ensures forall x: nat {:trigger High(x, k)} {:trigger Low(x, k)} ::
      Low(x, k) < k && Join(High(x, k), Low(x, k), k) == x
    ensures forall c: nat, e: nat {:trigger Join(c, e, k)} :: e < k ==>
      High(Join(c, e, k), k) == c && Low(Join(c, e, k), k) == e
    ensures forall x: nat, y: nat {:trigger High(x, k), High(y, k)} ::
      x < y <==> High(x, k) < High(y, k) || (High(x, k) == High(y, k) && Low(x, k) < Low(y, k))
  {
    forall x: nat
      ensures Low(x, k) < k && Join(High(x, k), Low(x, k), k) == x
    {
      JoinSplit(x, k);
    }
    forall c: nat, e: nat | e < k
      ensures High(Join(c, e, k), k) == c && Low(Join(c, e, k), k) == e
    {
      SplitJoin(c, e, k);
    }
    forall x: nat, y: nat
      ensures x < y <==> High(x, k) < High(y, k) || (High(x, k) == High(y, k) && Low(x, k) < Low(y, k))
    {
      SplitOrder(x, y, k);
    }
  }
}
