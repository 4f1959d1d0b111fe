/** The leaf of a van Emde Boas tree: an array of words used as a bit mask (`_VebFixedBase`). */
module VebLeaf {
  import opened Split
  import opened Bits
  import opened VebSet

  /** An optional last element: the program's possibly-null `_pnLastElement`. */
  datatype Limit = Whole | Upto(last: nat) {
    function Last(universe: nat): (r: int) {
      if Whole? then universe - 1 else last
    }
  }

  /** The set of positions whose bit is set in `ws`, a sequence of words of `k` bits. */
  ghost function Members(ws: seq<nat>, k: nat): set<nat>
    requires k > 0
  {
    set x: nat | 0 <= x < Join(|ws|, 0, k) && High(x, k) < |ws| && Bit(ws[High(x, k)], Low(x, k))
  }

  lemma MembersFacts(ws: seq<nat>, k: nat)
    requires k > 0
    ensures forall x: nat :: x in Members(ws, k) <==> High(x, k) < |ws| && Bit(ws[High(x, k)], Low(x, k))
  {
    forall x: nat
      ensures x in Members(ws, k) <==> High(x, k) < |ws| && Bit(ws[High(x, k)], Low(x, k))
    {
      SplitBound(x, |ws|, k);
    }
  }

  lemma ZeroIsEmpty(ws: seq<nat>, k: nat)
    requires k > 0 && forall i :: 0 <= i < |ws| ==> ws[i] == 0
    ensures Members(ws, k) == {}
  {
    MembersFacts(ws, k);
    forall x: nat
      ensures x !in Members(ws, k)
    {
      ZeroBits(Low(x, k));
    }
  }

  /** Rewriting one word changes membership in that word only. */
  lemma MembersUpdate(ws: seq<nat>, k: nat, i: nat, v: nat)
    requires k > 0 && i < |ws|
    ensures forall x: nat :: x in Members(ws[i := v], k) <==>
      if High(x, k) == i then Bit(v, Low(x, k)) else x in Members(ws, k)
  {
    MembersFacts(ws, k);
    MembersFacts(ws[i := v], k);
  }

  /** `*pn |= 1 << j` at the word of `x` adds `x`. */
  lemma SetOne(ws: seq<nat>, k: nat, x: nat)
    requires k > 0 && High(x, k) < |ws|
    ensures Members(ws[High(x, k) := Or(ws[High(x, k)], Pow2(Low(x, k)))], k) == Members(ws, k) + {x}
  {
    var i, w := High(x, k), ws[High(x, k)];
    var v := Or(w, Pow2(Low(x, k)));
    MembersUpdate(ws, k, i, v);
    MembersFacts(ws, k);
    SplitFacts(k);
    forall y: nat
      ensures y in Members(ws[i := v], k) <==> y in Members(ws, k) + {x}
    {
      OrBit(w, Pow2(Low(x, k)), Low(y, k));
      ShlBit(Low(x, k), Low(y, k));
    }
  }

  /** `*pn &= ~( 1 << j )` at the word of `x` removes `x`. */
  lemma ClearOne(ws: seq<nat>, k: nat, x: nat)
    requires k > 0 && High(x, k) < |ws|
    ensures Members(ws[High(x, k) := And(ws[High(x, k)], Not(Pow2(Low(x, k)), k))], k) == Members(ws, k) - {x}
  {
    var i, w := High(x, k), ws[High(x, k)];
    var v := And(w, Not(Pow2(Low(x, k)), k));
    MembersUpdate(ws, k, i, v);
    MembersFacts(ws, k);
    SplitFacts(k);
    forall y: nat
      ensures y in Members(ws[i := v], k) <==> y in Members(ws, k) - {x}
    {
      AndBit(w, Not(Pow2(Low(x, k)), k), Low(y, k));
      NotBit(Pow2(Low(x, k)), k, Low(y, k));
      ShlBit(Low(x, k), Low(y, k));
    }
  }

  /** The bits of `w & ~( ( 1 << j ) - 1 )`: those of `w` from `j` up. */
  lemma KeepFrom(w: nat, j: nat, k: nat)
    requires w < Pow2(k)
    ensures And(w, Not(Pow2(j) - 1, k)) < Pow2(k)
    ensures forall b: nat :: Bit(And(w, Not(Pow2(j) - 1, k)), b) <==> Bit(w, b) && j <= b
  {
    AndBound(w, Not(Pow2(j) - 1, k));
    forall b: nat
      ensures Bit(And(w, Not(Pow2(j) - 1, k)), b) <==> Bit(w, b) && j <= b
    {
      AndBit(w, Not(Pow2(j) - 1, k), b);
      NotBit(Pow2(j) - 1, k, b);
      MaskBit(j, b);
      if b >= k {
        HighBits(w, k, b);
      }
    }
  }

  /** The bits of `w & ( ( 1 << j ) - 1 )`: those of `w` below `j`. */
  lemma KeepBelow(w: nat, j: nat)
    ensures And(w, Pow2(j) - 1) <= w
    ensures forall b: nat :: Bit(And(w, Pow2(j) - 1), b) <==> Bit(w, b) && b < j
  {
    AndBound(w, Pow2(j) - 1);
    forall b: nat
      ensures Bit(And(w, Pow2(j) - 1), b) <==> Bit(w, b) && b < j
    {
      AndBit(w, Pow2(j) - 1, b);
      MaskBit(j, b);
    }
  }

  /** Every member of `ws` above `x` lies in word `i` or later. */
  ghost predicate AboveFrom(ws: seq<nat>, k: nat, x: nat, i: nat)
    requires k > 0
  {
    forall y :: y in Members(ws, k) && x < y ==> i <= High(y, k)
  }

  /** Every member of `ws` below `x` lies before word `i`. */
  ghost predicate BelowBefore(ws: seq<nat>, k: nat, x: nat, i: nat)
    requires k > 0
  {
    forall y :: y in Members(ws, k) && y < x ==> High(y, k) < i
  }

  lemma AboveStart(ws: seq<nat>, k: nat, x: nat)
    requires k > 0
    ensures AboveFrom(ws, k, x, High(x + 1, k))
    ensures forall y :: y in Members(ws, k) && x < y && High(y, k) == High(x + 1, k) ==> Low(x + 1, k) <= Low(y, k)
  {
    forall y | y in Members(ws, k) && x < y
      ensures High(x + 1, k) <= High(y, k)
      ensures High(y, k) == High(x + 1, k) ==> Low(x + 1, k) <= Low(y, k)
    {
      SplitOrder(y, x + 1, k);
    }
  }

  lemma BelowStart(ws: seq<nat>, k: nat, x: nat)
    requires k > 0 && x > 0
    ensures BelowBefore(ws, k, x, High(x - 1, k) + 1)
    ensures forall y :: y in Members(ws, k) && y < x && High(y, k) == High(x - 1, k) ==> Low(y, k) <= Low(x - 1, k)
  {
    forall y | y in Members(ws, k) && y < x
      ensures High(y, k) <= High(x - 1, k)
      ensures High(y, k) == High(x - 1, k) ==> Low(y, k) <= Low(x - 1, k)
    {
      SplitOrder(x - 1, y, k);
    }
  }

  /** A masked word that is zero holds no member: the scan moves on. */
  lemma SkipUp(ws: seq<nat>, k: nat, x: nat, i: nat, w: nat)
    requires k > 0 && i < |ws| && AboveFrom(ws, k, x, i) && w == 0
    requires forall y :: y in Members(ws, k) && x < y && High(y, k) == i ==> Bit(w, Low(y, k))
    ensures AboveFrom(ws, k, x, i + 1)
  {
    forall y | y in Members(ws, k) && x < y
      ensures i + 1 <= High(y, k)
    {
      ZeroBits(Low(y, k));
    }
  }

  lemma SkipDown(ws: seq<nat>, k: nat, x: nat, i: nat, w: nat)
    requires k > 0 && i < |ws| && BelowBefore(ws, k, x, i + 1) && w == 0
    requires forall y :: y in Members(ws, k) && y < x && High(y, k) == i ==> Bit(w, Low(y, k))
    ensures BelowBefore(ws, k, x, i)
  {
    forall y | y in Members(ws, k) && y < x
      ensures High(y, k) < i
    {
      ZeroBits(Low(y, k));
    }
  }

  /** A masked word that is not zero: its lowest bit is the successor. */
  lemma FoundUp(ws: seq<nat>, k: nat, x: nat, i: nat, w: nat)
    requires k > 0 && i < |ws| && AboveFrom(ws, k, x, i) && 0 < w < Pow2(k)
    requires forall y :: y in Members(ws, k) && x < y && High(y, k) == i ==> Bit(w, Low(y, k))
    requires forall b: nat :: b < k && Bit(w, b) ==> Bit(ws[i], b) && x < Join(i, b, k)
    ensures Ctz(w) < k && Join(i, Ctz(w), k) > 0 && IsSuccessor(Members(ws, k), x, Join(i, Ctz(w), k))
  {
    NonZero(w);
    CtzBelow(w, k);
    var r := Join(i, Ctz(w), k);
    SplitJoin(i, Ctz(w), k);
    MembersFacts(ws, k);
    forall y | y in Members(ws, k) && x < y
      ensures r <= y
    {
      SplitOrder(y, r, k);
    }
  }

  /** A masked word that is not zero: its highest bit is the predecessor. */
  lemma FoundDown(ws: seq<nat>, k: nat, x: nat, i: nat, w: nat, none: nat)
    requires k > 0 && i < |ws| && BelowBefore(ws, k, x, i + 1) && 0 < w < Pow2(k) && x <= none
    requires forall y :: y in Members(ws, k) && y < x && High(y, k) == i ==> Bit(w, Low(y, k))
    requires forall b: nat :: b < k && Bit(w, b) ==> Bit(ws[i], b) && Join(i, b, k) < x
    ensures Msb(w) < k && Join(i, Msb(w), k) < x && IsPredecessor(Members(ws, k), x, Join(i, Msb(w), k), none)
  {
    MsbBits(w);
    CtzBelow(w, k);
    var r := Join(i, Msb(w), k);
    SplitJoin(i, Msb(w), k);
    MembersFacts(ws, k);
    forall y | y in Members(ws, k) && y < x
      ensures y <= r
    {
      SplitOrder(r, y, k);
    }
  }

  /** Whole words after the first: no mask is needed. */
  lemma WholeWordUp(ws: seq<nat>, k: nat, x: nat, i: nat)
    requires k > 0 && High(x + 1, k) < i < |ws|
    ensures forall y :: y in Members(ws, k) && High(y, k) == i ==> Bit(ws[i], Low(y, k))
    ensures forall b: nat :: b < k ==> x < Join(i, b, k)
  {
    MembersFacts(ws, k);
    forall b: nat | b < k
      ensures x < Join(i, b, k)
    {
      SplitJoin(i, b, k);
      SplitOrder(x + 1, Join(i, b, k), k);
    }
  }

  lemma WholeWordDown(ws: seq<nat>, k: nat, x: nat, i: nat)
    requires k > 0 && x > 0 && i < High(x - 1, k) && i < |ws|
    ensures forall y :: y in Members(ws, k) && High(y, k) == i ==> Bit(ws[i], Low(y, k))
    ensures forall b: nat :: b < k ==> Join(i, b, k) < x
  {
    MembersFacts(ws, k);
    forall b: nat | b < k
      ensures Join(i, b, k) < x
    {
      SplitJoin(i, b, k);
      SplitOrder(Join(i, b, k), x - 1, k);
    }
  }

  /** The first word of an upward scan, masked as the program masks it. */
  lemma FirstWordUp(ws: seq<nat>, k: nat, x: nat, i: nat, w: nat)
    requires k > 0 && i == High(x + 1, k) && i < |ws| && ws[i] < Pow2(k)
    requires w == And(ws[i], Not(Pow2(Low(x + 1, k)) - 1, k))
    ensures w < Pow2(k) && AboveFrom(ws, k, x, i)
    ensures forall y :: y in Members(ws, k) && x < y && High(y, k) == i ==> Bit(w, Low(y, k))
    ensures forall b: nat :: b < k && Bit(w, b) ==> Bit(ws[i], b) && x < Join(i, b, k)
  {
    KeepFrom(ws[i], Low(x + 1, k), k);
    MembersFacts(ws, k);
    AboveStart(ws, k, x);
    forall b: nat | b < k && Bit(w, b)
      ensures x < Join(i, b, k)
    {
      SplitJoin(i, b, k);
      SplitOrder(Join(i, b, k), x + 1, k);
    }
  }

  /** The bits of `w` up to `j`; the mask is skipped when it would keep the whole word. */
  function MaskDown(w: nat, j: nat, k: nat): nat {
    if j + 1 != k then And(w, Pow2(j + 1) - 1) else w
  }

  /** The first word of a downward scan. */
  lemma FirstWordDown(ws: seq<nat>, k: nat, x: nat, i: nat, w: nat)
    requires k > 0 && x > 0 && i == High(x - 1, k) && i < |ws| && ws[i] < Pow2(k)
    requires w == MaskDown(ws[i], Low(x - 1, k), k)
    ensures w < Pow2(k) && BelowBefore(ws, k, x, i + 1)
    ensures forall y :: y in Members(ws, k) && y < x && High(y, k) == i ==> Bit(w, Low(y, k))
    ensures forall b: nat :: b < k && Bit(w, b) ==> Bit(ws[i], b) && Join(i, b, k) < x
  {
    KeepBelow(ws[i], Low(x - 1, k) + 1);
    MembersFacts(ws, k);
    BelowStart(ws, k, x);
    forall b: nat | b < k && Bit(w, b)
      ensures Join(i, b, k) < x
    {
      SplitJoin(i, b, k);
      SplitOrder(x - 1, Join(i, b, k), k);
    }
  }

  /** Clearing from bit `next` on, word by word, leaves the members below `next`. */
  lemma Truncate(ws: seq<nat>, cut: seq<nat>, k: nat, next: nat)
    requires k > 0 && High(next, k) < |ws| == |cut|
    requires forall i :: 0 <= i < High(next, k) ==> cut[i] == ws[i]
    requires cut[High(next, k)] == if Low(next, k) == 0 then 0 else And(ws[High(next, k)], Pow2(Low(next, k)) - 1)
    requires forall i :: High(next, k) < i < |cut| ==> cut[i] == 0
    ensures Members(cut, k) == Below(Members(ws, k), next)
  {
    MembersFacts(ws, k);
    MembersFacts(cut, k);
    KeepBelow(ws[High(next, k)], Low(next, k));
    forall y: nat
      ensures y in Members(cut, k) <==> y in Below(Members(ws, k), next)
    {
      SplitOrder(y, next, k);
      ZeroBits(Low(y, k));
    }
  }

  /** Word `h` after the trim that ends InsertAll and BitwiseInvert. */
  function TrimWord(w: nat, k: nat, last: nat, h: nat): nat
    requires k > 0
  {
    if h == High(last, k) && Low(last + 1, k) != 0 then And(w, Pow2(Low(last + 1, k)) - 1) else w
  }

  /** That trim removes what lies past the last element. */
  lemma Trim(ws: seq<nat>, k: nat, last: nat, cut: seq<nat>)
    requires k > 0 && High(last, k) < |ws| == |cut|
    requires forall y :: y in Members(ws, k) ==> High(y, k) <= High(last, k)
    requires forall h :: 0 <= h < |ws| ==> cut[h] == TrimWord(ws[h], k, last, h)
    ensures Members(cut, k) == Below(Members(ws, k), last + 1)
  {
    MembersFacts(ws, k);
    MembersFacts(cut, k);
    forall y: nat
      ensures y in Members(cut, k) <==> y in Below(Members(ws, k), last + 1)
    {
      if High(y, k) < |ws| {
        TrimBit(ws[High(y, k)], k, last, y);
      }
    }
  }

  lemma TrimBit(w: nat, k: nat, last: nat, y: nat)
    requires k > 0
    ensures High(y, k) <= High(last, k) ==>
      (Bit(TrimWord(w, k, last, High(y, k)), Low(y, k)) <==> Bit(w, Low(y, k)) && y <= last)
    ensures High(y, k) > High(last, k) ==> TrimWord(w, k, last, High(y, k)) == w
  {
    KeepBelow(w, Low(last + 1, k));
    NextInWord(last, k);
    SplitOrder(last, y, k);
    JoinSplit(y, k);
    if High(y, k) == High(last, k) && Low(last + 1, k) != 0 {
      assert Low(y, k) < Low(last + 1, k) <==> Low(y, k) <= Low(last, k);
      assert Bit(TrimWord(w, k, last, High(y, k)), Low(y, k)) <==> Bit(w, Low(y, k)) && Low(y, k) < Low(last + 1, k);
    } else if High(y, k) == High(last, k) {
      assert Low(y, k) <= Low(last, k);
    }
  }

  /** `x + 1` is in the word of `x`, one bit up, unless `x` ends its word. */
  lemma NextInWord(x: nat, k: nat)
    requires k > 0
    ensures if Low(x, k) + 1 == k then Low(x + 1, k) == 0 && High(x + 1, k) == High(x, k) + 1
            else Low(x + 1, k) == Low(x, k) + 1 && High(x + 1, k) == High(x, k)
  {
    if x >= k {
      NextInWord(x - k, k);
    }
  }

  /** `ones` is `~0` from bit `first` on: the program's `~( ( 1 << first ) - 1 )`. */
  lemma OnesFrom(ones: nat, first: nat, k: nat)
    requires first <= k && ones == Not(Pow2(first) - 1, k)
    ensures ones < Pow2(k)
    ensures forall b: nat :: Bit(ones, b) <==> first <= b < k
  {
    forall b: nat
      ensures Bit(ones, b) <==> first <= b < k
    {
      NotBit(Pow2(first) - 1, k, b);
      MaskBit(first, b);
    }
    NotBit(Pow2(first) - 1, k, 0);
  }

  /** What InsertAll writes in word `i`. */
  function FillWord(i: nat, first: nat, k: nat): (w: nat)
    requires first <= k
    ensures w < Pow2(k)
  {
    NotBit(Pow2(if i == 0 then first else 0) - 1, k, 0);
    Not(Pow2(if i == 0 then first else 0) - 1, k)
  }

  /** Words filled as InsertAll fills them hold every position from `first` through word `i - 1`. */
  lemma Filled(ws: seq<nat>, k: nat, first: nat, i: nat)
    requires first < k && i <= |ws|
    requires forall j :: 0 <= j < i ==> ws[j] == FillWord(j, first, k)
    ensures forall y: nat :: High(y, k) < i ==> (y in Members(ws, k) <==> first <= y)
  {
    MembersFacts(ws, k);
    OnesFrom(FillWord(0, first, k), first, k);
    OnesFrom(FillWord(1, first, k), 0, k);
    forall y: nat | High(y, k) < i
      ensures y in Members(ws, k) <==> first <= y
    {
      JoinSplit(y, k);
      SplitOrder(y, first, k);
    }
  }

  /** Inverting the words up to `i` complements membership there. */
  lemma Inverted(ws: seq<nat>, inv: seq<nat>, k: nat, i: nat)
    requires k > 0 && i <= |ws| == |inv|
    requires forall j :: 0 <= j < i ==> inv[j] == Not(ws[j], k)
    ensures forall y: nat :: High(y, k) < i ==> (y in Members(inv, k) <==> y !in Members(ws, k))
  {
    MembersFacts(ws, k);
    MembersFacts(inv, k);
    forall y: nat | High(y, k) < i
      ensures y in Members(inv, k) <==> y !in Members(ws, k)
    {
      JoinSplit(y, k);
      NotBit(ws[High(y, k)], k, Low(y, k));
    }
  }

  /** Words left alone from `i` on that held nothing still hold nothing. */
  lemma SameFrom(ws: seq<nat>, vs: seq<nat>, k: nat, i: nat)
    requires k > 0 && |ws| == |vs|
    requires forall j :: i <= j < |ws| ==> ws[j] == vs[j]
    requires forall y :: y in Members(ws, k) ==> High(y, k) < i
    ensures forall y :: y in Members(vs, k) ==> High(y, k) < i
  {
    MembersFacts(ws, k);
    MembersFacts(vs, k);
  }

  /** Word-wise `|` is union. */
  lemma Union(ws: seq<nat>, vs: seq<nat>, us: seq<nat>, k: nat)
    requires k > 0 && |ws| == |vs| == |us|
    requires forall j :: 0 <= j < |ws| ==> us[j] == Or(ws[j], vs[j])
    ensures Members(us, k) == Members(ws, k) + Members(vs, k)
  {
    MembersFacts(ws, k);
    MembersFacts(vs, k);
    MembersFacts(us, k);
    forall y: nat
      ensures y in Members(us, k) <==> y in Members(ws, k) + Members(vs, k)
    {
      if High(y, k) < |ws| {
        OrBit(ws[High(y, k)], vs[High(y, k)], Low(y, k));
      }
    }
  }

  lemma MinInWord(ws: seq<nat>, k: nat, i: nat)
    requires k > 0 && i < |ws| && 0 < ws[i] < Pow2(k)
    requires forall j :: 0 <= j < i ==> ws[j] == 0
    ensures IsMin(Members(ws, k), Join(i, Ctz(ws[i]), k))
  {
    NonZero(ws[i]);
    CtzBelow(ws[i], k);
    SplitJoin(i, Ctz(ws[i]), k);
    MembersFacts(ws, k);
    forall y | y in Members(ws, k)
      ensures Join(i, Ctz(ws[i]), k) <= y
    {
      SplitOrder(y, Join(i, Ctz(ws[i]), k), k);
      ZeroBits(Low(y, k));
    }
  }

  lemma MaxInWord(ws: seq<nat>, k: nat, i: nat)
    requires k > 0 && i < |ws| && 0 < ws[i] < Pow2(k)
    requires forall j :: i < j < |ws| ==> ws[j] == 0
    ensures IsMax(Members(ws, k), Join(i, Msb(ws[i]), k))
  {
    MsbBits(ws[i]);
    CtzBelow(ws[i], k);
    SplitJoin(i, Msb(ws[i]), k);
    MembersFacts(ws, k);
    forall y | y in Members(ws, k)
      ensures y <= Join(i, Msb(ws[i]), k)
    {
      SplitOrder(Join(i, Msb(ws[i]), k), y, k);
      ZeroBits(Low(y, k));
    }
  }

  /** The leaf: a fixed array of words, changed in place. */
  class Leaf {
    /** log2 of the universe: 5 to 9. */
    const n: nat
    /** Bits in a word (`s_kstNBitsUint`): 32 in the smallest leaf, else 64. */
    const k: nat
    /** The words (`m_rgUint`), part of this object. */
    const words: array<nat>

    ghost predicate Shape() {
      && 5 <= n <= 9
      && k == (if n == 5 then 32 else 64)
      && words.Length == (if n <= 6 then 1 else if n == 7 then 2 else if n == 8 then 4 else 8)
    }

    ghost predicate Valid()
      reads words
    {
      Shape() && forall i :: 0 <= i < words.Length ==> words[i] < Pow2(k)
    }

    /** The set this leaf holds. */
    ghost function S(): set<nat>
      requires k > 0
      reads words
    {
      Members(words[..], k)
    }

    /** A zero-filled leaf. */
    constructor (n: nat)
      requires 5 <= n <= 9
      ensures Valid() && this.n == n && fresh(words)
      ensures S() == {}
    {
      this.n := n;
      k := if n == 5 then 32 else 64;
      words := new nat[if n <= 6 then 1 else if n == 7 then 2 else if n == 8 then 4 else 8](_ => 0);
      new;
      ZeroIsEmpty(words[..], k);
    }

    /** The universe, `s_kstUniverse`. */
    function U(): nat {
      Pow2(n)
    }

    lemma UniverseIsWords()
      requires Shape()
      ensures U() == Join(words.Length, 0, k)
      ensures forall x: nat :: High(x, k) < words.Length <==> x < U()
    {
      JoinIsMulAdd(words.Length, 0, k);
      assert Pow2(5) == 32 && Pow2(6) == 64;
      assert Pow2(7) == 128 && Pow2(8) == 256 && Pow2(9) == 512;
      forall x: nat
        ensures High(x, k) < words.Length <==> x < U()
      {
        SplitBound(x, words.Length, k);
      }
    }

    method FHasAnyElements() returns (f: bool)
      requires Valid()
      ensures f <==> S() != {}
    {
      MembersFacts(words[..], k);
      for i := 0 to words.Length
        invariant forall j :: 0 <= j < i ==> words[j] == 0
      {
        if words[i] != 0 {
          NonZero(words[i]);
          CtzBelow(words[i], k);
          SplitJoin(i, Ctz(words[i]), k);
          assert Join(i, Ctz(words[i]), k) in S();
          return true;
        }
      }
      ZeroIsEmpty(words[..], k);
      f := false;
    }

    method FHasMin() returns (f: bool, m: nat)
      requires Valid()
      ensures f <==> S() != {}
      ensures f ==> IsMin(S(), m)
    {
      for i := 0 to words.Length
        invariant forall j :: 0 <= j < i ==> words[j] == 0
      {
        if words[i] != 0 {
          MinInWord(words[..], k, i);
          return true, Join(i, Ctz(words[i]), k);
        }
      }
      ZeroIsEmpty(words[..], k);
      f, m := false, 0;
    }

    method FHasMax() returns (f: bool, m: nat)
      requires Valid()
      ensures f <==> S() != {}
      ensures f ==> IsMax(S(), m)
    {
      f, m := MaxOfWords(words.Length);
    }

    /** The backward scan for a maximum, over the words before `end`; the rest are known to be zero. */
    method MaxOfWords(end: nat) returns (f: bool, m: nat)
      requires Valid() && end <= words.Length
      requires forall i :: end <= i < words.Length ==> words[i] == 0
      ensures f <==> S() != {}
      ensures f ==> IsMax(S(), m)
    {
      for i := end downto 0
        invariant forall j :: i <= j < words.Length ==> words[j] == 0
      {
        if words[i] != 0 {
          MaxInWord(words[..], k, i);
          return true, Join(i, Msb(words[i]), k);
        }
      }
      ZeroIsEmpty(words[..], k);
      f, m := false, 0;
    }

    method FHasElement(x: nat) returns (f: bool)
      requires Valid() && x < U()
      ensures f <==> x in S()
    {
      UniverseIsWords();
      MembersFacts(words[..], k);
      var bit := And(words[High(x, k)], Pow2(Low(x, k)));
      if bit != 0 {
        NonZero(bit);
        AndBit(words[High(x, k)], Pow2(Low(x, k)), Ctz(bit));
        ShlBit(Low(x, k), Ctz(bit));
      } else {
        AndBit(words[High(x, k)], Pow2(Low(x, k)), Low(x, k));
        ShlBit(Low(x, k), Low(x, k));
        ZeroBits(Low(x, k));
      }
      f := bit != 0;
    }

    method Clear()
      requires Shape()
      modifies words
      ensures Valid() && S() == {}
    {
      for i := 0 to words.Length
        invariant forall j :: 0 <= j < i ==> words[j] == 0
      {
        words[i] := 0;
      }
      ZeroIsEmpty(words[..], k);
    }

    method Insert(x: nat)
      requires Valid() && x < U()
      modifies words
      ensures Valid() && S() == old(S()) + {x}
    {
      UniverseIsWords();
      SetOne(words[..], k, x);
      SplitFacts(k);
      Pow2Mono(Low(x, k), k);
      OrBound(words[High(x, k)], Pow2(Low(x, k)), k);
      ghost var was := words[..];
      words[High(x, k)] := Or(words[High(x, k)], Pow2(Low(x, k)));
      assert words[..] == was[High(x, k) := words[High(x, k)]];
    }

    method FCheckInsert(x: nat) returns (f: bool)
      requires Valid() && x < U()
      modifies words
      ensures Valid() && S() == old(S()) + {x}
      ensures f <==> x !in old(S())
    {
      f := FHasElement(x);
      if f {
        return false;
      }
      Insert(x);
      f := true;
    }

    method Delete(x: nat)
      requires Valid() && x < U()
      modifies words
      ensures Valid() && S() == old(S()) - {x}
    {
      UniverseIsWords();
      JoinSplit(x, k);
      ClearBit(High(x, k), Low(x, k));
    }

    /** `*pn &= ~( 1 << j )`, for the word `pn` at index `i`. */
    method ClearBit(i: nat, j: nat)
      requires Valid() && i < words.Length && j < k
      modifies words
      ensures Valid() && S() == old(S()) - {Join(i, j, k)}
    {
      SplitJoin(i, j, k);
      ClearOne(words[..], k, Join(i, j, k));
      AndBound(words[i], Not(Pow2(j), k));
      ghost var was := words[..];
      words[i] := And(words[i], Not(Pow2(j), k));
      assert words[..] == was[i := words[i]];
    }

    method FCheckDelete(x: nat) returns (f: bool)
      requires Valid() && x < U()
      modifies words
      ensures Valid() && S() == old(S()) - {x}
      ensures f <==> x in old(S())
    {
      f := FHasElement(x);
      if f {
        Delete(x);
      }
    }

    /** The scan that NSuccessor and NSuccessorDelete share: the word and bit of the least member above `x`. */
    method ScanUp(x: nat) returns (found: bool, i: nat, j: nat)
      requires Valid() && x < U() - 1
      ensures found ==> i < words.Length && j < k && Join(i, j, k) > 0 && IsSuccessor(S(), x, Join(i, j, k))
      ensures !found ==> IsSuccessor(S(), x, 0)
    {
      UniverseIsWords();
      i := High(x + 1, k);
      var masked := And(words[i], Not(Pow2(Low(x + 1, k)) - 1, k));
      FirstWordUp(words[..], k, x, i, masked);
      if masked != 0 {
        FoundUp(words[..], k, x, i, masked);
        return true, i, Ctz(masked);
      }
      SkipUp(words[..], k, x, i, masked);
      i := i + 1;
      while i != words.Length
        invariant High(x + 1, k) < i <= words.Length
        invariant AboveFrom(words[..], k, x, i)
      {
        WholeWordUp(words[..], k, x, i);
        if words[i] != 0 {
          FoundUp(words[..], k, x, i, words[i]);
          return true, i, Ctz(words[i]);
        }
        SkipUp(words[..], k, x, i, words[i]);
        i := i + 1;
      }
      MembersFacts(words[..], k);
      found, j := false, 0;
    }

    method NSuccessor(x: nat) returns (r: nat)
      requires Valid() && x < U()
      ensures IsSuccessor(S(), x, r)
    {
      UniverseIsWords();
      MembersFacts(words[..], k);
      if x >= U() - 1 {
        return 0;
      }
      var found, i, j := ScanUp(x);
      r := if found then Join(i, j, k) else 0;
    }

    method NSuccessorDelete(x: nat) returns (r: nat)
      requires Valid() && x < U()
      modifies words
      ensures IsSuccessor(old(S()), x, r)
      ensures Valid() && S() == if r == 0 then old(S()) else old(S()) - {r}
    {
      UniverseIsWords();
      MembersFacts(words[..], k);
      if x >= U() - 1 {
        return 0;
      }
      var found, i, j := ScanUp(x);
      if found {
        ClearBit(i, j);
        return Join(i, j, k);
      }
      r := 0;
    }

    /** The scan that NPredecessor and NPredecessorDelete share: the word and bit of the greatest member below `x`. */
    method ScanDown(x: nat) returns (found: bool, i: nat, j: nat)
      requires Valid() && 0 < x < U()
      ensures found ==> i < words.Length && j < k && Join(i, j, k) < x && IsPredecessor(S(), x, Join(i, j, k), U() - 1)
      ensures !found ==> IsPredecessor(S(), x, U() - 1, U() - 1)
    {
      i := High(x - 1, k);
      assert i < words.Length by {
        UniverseIsWords();
        SplitOrder(x - 1, x, k);
      }
      var masked := MaskDown(words[i], Low(x - 1, k), k);
      FirstWordDown(words[..], k, x, i, masked);
      if masked != 0 {
        FoundDown(words[..], k, x, i, masked, U() - 1);
        return true, i, Msb(masked);
      }
      SkipDown(words[..], k, x, i, masked);
      while i != 0
        invariant i <= High(x - 1, k) < words.Length
        invariant BelowBefore(words[..], k, x, i)
      {
        i := i - 1;
        WholeWordDown(words[..], k, x, i);
        if words[i] != 0 {
          FoundDown(words[..], k, x, i, words[i], U() - 1);
          return true, i, Msb(words[i]);
        }
        SkipDown(words[..], k, x, i, words[i]);
      }
      found, j := false, 0;
    }

    method NPredecessor(x: nat) returns (r: nat)
      requires Valid() && x < U()
      ensures IsPredecessor(S(), x, r, U() - 1)
    {
      if x == 0 {
        return U() - 1;
      }
      var found, i, j := ScanDown(x);
      r := if found then Join(i, j, k) else U() - 1;
    }

    method NPredecessorDelete(x: nat) returns (r: nat)
      requires Valid() && x < U()
      modifies words
      ensures IsPredecessor(old(S()), x, r, U() - 1)
      ensures Valid() && S() == if r == U() - 1 then old(S()) else old(S()) - {r}
    {
      if x == 0 {
        return U() - 1;
      }
      var found, i, j := ScanDown(x);
      if found {
        ClearBit(i, j);
        return Join(i, j, k);
      }
      r := U() - 1;
    }

    /** `operator|=` */
    method OrEquals(r: Leaf)
      requires Valid() && r.Valid() && r.n == n && r.words != words
      modifies words
      ensures Valid() && S() == old(S()) + r.S()
    {
      for i := 0 to words.Length
        invariant Valid()
        invariant forall j :: 0 <= j < i ==> words[j] == Or(old(words[j]), r.words[j])
        invariant forall j :: i <= j < words.Length ==> words[j] == old(words[j])
      {
        OrBound(words[i], r.words[i], k);
        words[i] := Or(words[i], r.words[i]);
      }
      Union(old(words[..]), r.words[..], words[..], k);
    }

    /** The number of words an operation limited to `limit` touches. */
    function WordsTo(limit: Limit): nat
      requires k > 0
    {
      if limit.Upto? then High(limit.last, k) + 1 else words.Length
    }

    lemma WordsToFacts(limit: Limit)
      requires Shape() && (limit.Upto? ==> limit.last < U() - 1)
      ensures 0 < WordsTo(limit) <= words.Length
      ensures forall y: nat :: y <= limit.Last(U()) ==> High(y, k) < WordsTo(limit)
    {
      UniverseIsWords();
      if limit.Upto? {
        forall y: nat | y <= limit.last
          ensures High(y, k) <= High(limit.last, k)
        {
          SplitOrder(limit.last, y, k);
        }
      }
    }

    /** Removes the bits past the last element from the word that holds it. */
    method TrimTo(limit: Limit)
      requires Valid() && (limit.Upto? ==> limit.last < U() - 1)
      requires forall y :: y in S() ==> High(y, k) < WordsTo(limit)
      modifies words
      ensures Valid() && S() == Below(old(S()), limit.Last(U()) + 1)
    {
      UniverseIsWords();
      if limit.Upto? {
        ghost var was := words[..];
        var i, j := High(limit.last, k), Low(limit.last + 1, k);
        if j != 0 {
          AndBound(words[i], Pow2(j) - 1);
          words[i] := And(words[i], Pow2(j) - 1);
        }
        Trim(was, k, limit.last, words[..]);
      }
    }

    /** Sets exactly `[first, last]`. As in the program, `first` must lie in the first word. */
    method InsertAll(first: nat, limit: Limit)
      requires Valid() && first < k && (limit.Upto? ==> first <= limit.last < U() - 1)
      requires forall y :: y in S() ==> y <= limit.Last(U())
      modifies words
      ensures Valid() && S() == Interval(first, limit.Last(U()))
    {
      WordsToFacts(limit);
      ghost var was := words[..];
      assert forall y :: y in S() ==> High(y, k) < WordsTo(limit);
      for i := 0 to WordsTo(limit)
        invariant Valid()
        invariant forall j :: 0 <= j < i ==> words[j] == FillWord(j, first, k)
        invariant forall j :: i <= j < words.Length ==> words[j] == was[j]
      {
        words[i] := FillWord(i, first, k);
      }
      SameFrom(was, words[..], k, WordsTo(limit));
      Filled(words[..], k, first, WordsTo(limit));
      TrimTo(limit);
    }

    /** Complements the members within `[0, last]`. */
    method BitwiseInvert(limit: Limit)
      requires Valid() && (limit.Upto? ==> limit.last < U() - 1)
      requires forall y :: y in S() ==> y <= limit.Last(U())
      modifies words
      ensures Valid() && S() == Interval(0, limit.Last(U())) - old(S())
    {
      WordsToFacts(limit);
      ghost var was := words[..];
      assert forall y :: y in S() ==> High(y, k) < WordsTo(limit);
      InvertWords(WordsTo(limit));
      SameFrom(was, words[..], k, WordsTo(limit));
      Inverted(was, words[..], k, WordsTo(limit));
      TrimTo(limit);
    }

    method InvertWords(end: nat)
      requires Valid() && end <= words.Length
      modifies words
      ensures Valid()
      ensures forall j :: 0 <= j < end ==> words[j] == Not(old(words[j]), k)
      ensures forall j :: end <= j < words.Length ==> words[j] == old(words[j])
    {
      for i := 0 to end
        invariant Valid()
        invariant forall j :: 0 <= j < i ==> words[j] == Not(old(words[j]), k)
        invariant forall j :: i <= j < words.Length ==> words[j] == old(words[j])
      {
        NotBit(words[i], k, 0);
        words[i] := Not(words[i], k);
      }
    }

    /** `++_x` in the leaf's own index type, which is one byte wide up to the 256-element leaf. */
    function Increment(x: nat): nat {
      if n <= 8 && x == 255 then 0 else x + 1
    }

    /** Keeps the members below `++_x`: those up to `x`, unless the increment wraps. */
    method FDeleteAllAfter(x: nat) returns (emptied: bool, m: nat)
      requires Valid() && x < U()
      modifies words
      ensures Valid() && S() == Below(old(S()), Increment(x))
      ensures emptied <==> S() == {}
      ensures !emptied ==> IsMax(S(), m)
    {
      var next := Increment(x);
      UniverseIsWords();
      if next < U() {
        ClearFrom(next);
        var f;
        f, m := MaxOfWords(if Low(next, k) != 0 then High(next, k) + 1 else High(next, k));
        return !f, m;
      }
      UniverseIsWords();
      MembersFacts(words[..], k);
      var f;
      f, m := FHasMax();
      emptied := !f;
    }

    /** The clearing half of FDeleteAllAfter. */
    method ClearFrom(next: nat)
      requires Valid() && next < U()
      modifies words
      ensures Valid() && S() == Below(old(S()), next)
      ensures forall i :: (if Low(next, k) != 0 then High(next, k) + 1 else High(next, k)) <= i < words.Length ==> words[i] == 0
    {
      UniverseIsWords();
      var clear := High(next, k);
      if Low(next, k) != 0 {
        AndBound(words[clear], Pow2(Low(next, k)) - 1);
        words[clear] := And(words[clear], Pow2(Low(next, k)) - 1);
        clear := clear + 1;
      }
      label Masked:
      for i := clear to words.Length
        invariant Valid()
        invariant forall j :: clear <= j < i ==> words[j] == 0
        invariant forall j :: 0 <= j < clear ==> words[j] == old@Masked(words[j])
      {
        words[i] := 0;
      }
      Truncate(old(words[..]), words[..], k, next);
    }
  }
}
