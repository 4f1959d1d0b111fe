/** Sequences of words read as a row of bits, and as a number. */
module BitWords {
  import opened Bits
  import opened Split

  /** Bit `i` of `ws`, whose words have `k` bits. */
  predicate At(ws: seq<nat>, k: nat, i: nat)
    requires k > 0
  {
    High(i, k) < |ws| && Bit(ws[High(i, k)], Low(i, k))
  }

  predicate Words(ws: seq<nat>, k: nat) {
    forall j :: 0 <= j < |ws| ==> ws[j] < Pow2(k)
  }

  /** The number of words for `size` bits. */
  function WordsFor(size: nat, k: nat): nat
    requires k > 0
  {
    if size == 0 then 0 else High(size - 1, k) + 1
  }

  /** `size` bits in words of `k` bits, with nothing past the end. */
  ghost predicate Clean(ws: seq<nat>, k: nat, size: nat)
    requires k > 0
  {
    |ws| == WordsFor(size, k) && Words(ws, k) && forall i: nat :: At(ws, k, i) ==> i < size
  }

  /** The number whose digits are the words, the lowest first. */
  function Value(ws: seq<nat>, k: nat): nat {
    if ws == [] then 0 else Join(Value(ws[1..], k), ws[0], Pow2(k))
  }

  // Bits of numbers

  /** The low `k` bits and the rest. */
  lemma {:induction false} JoinBit(c: nat, e: nat, k: nat, i: nat)
    requires e < Pow2(k)
    ensures Bit(Join(c, e, Pow2(k)), i) <==> if i < k then Bit(e, i) else Bit(c, i - k)
    decreases k
  {
    JoinIsMulAdd(c, e, Pow2(k));
    if k == 0 {
      assert Join(c, e, Pow2(k)) == c;
    } else {
      JoinIsMulAdd(c, e / 2, Pow2(k - 1));
      var v, h := Join(c, e, Pow2(k)), Join(c, e / 2, Pow2(k - 1));
      assert v == 2 * h + e % 2 by {
        assert c * Pow2(k) == 2 * (c * Pow2(k - 1));
      }
      if i > 0 {
        JoinBit(c, e / 2, k - 1, i - 1);
      }
    }
  }

  /** `v % 2^n` has the low `n` bits of `v`. */
  lemma LowBit(v: nat, n: nat, i: nat)
    ensures Bit(Low(v, Pow2(n)), i) <==> i < n && Bit(v, i)
  {
    JoinSplit(v, Pow2(n));
    JoinBit(High(v, Pow2(n)), Low(v, Pow2(n)), n, i);
    if i >= n {
      HighBits(Low(v, Pow2(n)), n, i);
    }
  }

  /** `v * 2^s` has the bits of `v`, `s` places up. */
  lemma ShiftBit(v: nat, s: nat, i: nat)
    ensures Bit(v * Pow2(s), i) <==> i >= s && Bit(v, i - s)
  {
    JoinIsMulAdd(v, 0, Pow2(s));
    JoinBit(v, 0, s, i);
    ZeroBits(i);
  }

  /** `v / 2^s` has the bits of `v`, `s` places down. */
  lemma {:induction false} UnshiftBit(v: nat, s: nat, i: nat)
    ensures Bit(High(v, Pow2(s)), i) <==> Bit(v, i + s)
  {
    JoinSplit(v, Pow2(s));
    JoinBit(High(v, Pow2(s)), Low(v, Pow2(s)), s, i + s);
  }

  /** The bits of the number are the bits of the words. */
  lemma {:induction false} ValueBit(ws: seq<nat>, k: nat, i: nat)
    requires k > 0 && Words(ws, k)
    ensures Bit(Value(ws, k), i) <==> At(ws, k, i)
    decreases ws
  {
    if ws == [] {
      ZeroBits(i);
    } else {
      JoinBit(Value(ws[1..], k), ws[0], k, i);
      if i >= k {
        ValueBit(ws[1..], k, i - k);
      }
    }
  }

  /** Rows of bits that agree are the same number. */
  lemma SameValue(ws: seq<nat>, k: nat, v: nat)
    requires k > 0 && Words(ws, k) && forall i: nat :: At(ws, k, i) <==> Bit(v, i)
    ensures Value(ws, k) == v
  {
    forall i: nat
      ensures Bit(Value(ws, k), i) <==> Bit(v, i)
    {
      ValueBit(ws, k, i);
    }
    SameBits(Value(ws, k), v);
  }

  /** And the same words. */
  lemma SameWords(ws: seq<nat>, vs: seq<nat>, k: nat)
    requires k > 0 && Words(ws, k) && Words(vs, k) && |ws| == |vs|
    requires forall i: nat :: At(ws, k, i) <==> At(vs, k, i)
    ensures ws == vs
  {
    forall j | 0 <= j < |ws|
      ensures ws[j] == vs[j]
    {
      forall b: nat
        ensures Bit(ws[j], b) <==> Bit(vs[j], b)
      {
        if b < k {
          SplitJoin(j, b, k);
          assert At(ws, k, Join(j, b, k)) <==> At(vs, k, Join(j, b, k));
        } else {
          HighBits(ws[j], k, b);
          HighBits(vs[j], k, b);
        }
      }
      SameBits(ws[j], vs[j]);
    }
  }

  // One word

  /** `w & ( w - 1 )` clears the lowest set bit and no other. */
  lemma {:induction false} ClearLowest(w: nat, b: nat)
    requires w > 0
    ensures Bit(And(w, w - 1), b) <==> Bit(w, b) && b != Ctz(w)
    ensures And(w, w - 1) < w
  {
    AndBit(w, w - 1, b);
    AndBound(w, w - 1);
    if w % 2 == 1 {
      if b > 0 {
        assert (w - 1) / 2 == w / 2;
      }
    } else {
      assert (w - 1) / 2 == w / 2 - 1;
      if b > 0 {
        ClearLowest(w / 2, b - 1);
        AndBit(w / 2, w / 2 - 1, b - 1);
      }
    }
  }

  /** `_bv_first_set`: `w & ~( w & ( w - 1 ) )` is the lowest set bit, so that its highest set bit is that one. */
  lemma FirstSet(w: nat, k: nat)
    requires 0 < w < Pow2(k)
    ensures And(w, Not(And(w, w - 1), k)) == Pow2(Ctz(w)) && Msb(Pow2(Ctz(w))) == Ctz(w) < k
  {
    CtzBelow(w, k);
    NonZero(w);
    forall b: nat
      ensures Bit(And(w, Not(And(w, w - 1), k)), b) <==> Bit(Pow2(Ctz(w)), b)
    {
      AndBit(w, Not(And(w, w - 1), k), b);
      NotBit(And(w, w - 1), k, b);
      ClearLowest(w, b);
      ShlBit(Ctz(w), b);
    }
    SameBits(And(w, Not(And(w, w - 1), k)), Pow2(Ctz(w)));
    MsbOfPower(Ctz(w));
  }

  lemma {:induction false} MsbOfPower(n: nat)
    ensures Msb(Pow2(n)) == n
  {
    if n > 0 {
      MsbOfPower(n - 1);
      assert Pow2(n) / 2 == Pow2(n - 1);
    }
  }

  /** `ws[ i / k ] |= 1 << ( i % k )` */
  lemma SetAt(ws: seq<nat>, k: nat, i: nat)
    requires k > 0 && Words(ws, k) && High(i, k) < |ws|
    ensures var r := ws[High(i, k) := Or(ws[High(i, k)], Pow2(Low(i, k)))];
      Words(r, k) && forall j: nat :: At(r, k, j) <==> At(ws, k, j) || j == i
  {
    var w := ws[High(i, k)];
    var r := ws[High(i, k) := Or(w, Pow2(Low(i, k)))];
    JoinSplit(i, k);
    Pow2Mono(Low(i, k), k);
    OrBound(w, Pow2(Low(i, k)), k);
    forall j: nat
      ensures At(r, k, j) <==> At(ws, k, j) || j == i
    {
      OrBit(w, Pow2(Low(i, k)), Low(j, k));
      ShlBit(Low(i, k), Low(j, k));
      JoinSplit(j, k);
    }
  }

  /** `ws[ i / k ] &= ~( 1 << ( i % k ) )` */
  lemma ClearAt(ws: seq<nat>, k: nat, i: nat)
    requires k > 0 && Words(ws, k) && High(i, k) < |ws|
    ensures var r := ws[High(i, k) := And(ws[High(i, k)], Not(Pow2(Low(i, k)), k))];
      Words(r, k) && forall j: nat :: At(r, k, j) <==> At(ws, k, j) && j != i
  {
    var w, m := ws[High(i, k)], Not(Pow2(Low(i, k)), k);
    var r := ws[High(i, k) := And(w, m)];
    AndBound(w, m);
    JoinSplit(i, k);
    forall j: nat
      ensures At(r, k, j) <==> At(ws, k, j) && j != i
    {
      AndBit(w, m, Low(j, k));
      NotBit(Pow2(Low(i, k)), k, Low(j, k));
      ShlBit(Low(i, k), Low(j, k));
      JoinSplit(j, k);
    }
  }

  /** The lowest bit of word `i` cleared. */
  lemma LowestAt(ws: seq<nat>, k: nat, i: nat)
    requires k > 0 && Words(ws, k) && i < |ws| && ws[i] > 0
    ensures var r := ws[i := And(ws[i], ws[i] - 1)];
      Words(r, k) && forall j: nat :: At(r, k, j) <==> At(ws, k, j) && j != Join(i, Ctz(ws[i]), k)
  {
    var r := ws[i := And(ws[i], ws[i] - 1)];
    ClearLowest(ws[i], 0);
    CtzBelow(ws[i], k);
    SplitJoin(i, Ctz(ws[i]), k);
    forall j: nat
      ensures At(r, k, j) <==> At(ws, k, j) && j != Join(i, Ctz(ws[i]), k)
    {
      ClearLowest(ws[i], Low(j, k));
      JoinSplit(j, k);
    }
  }

  /** `ws[ i / k ] & ( 1 << ( i % k ) )` */
  lemma TestAt(w: nat, b: nat)
    ensures And(w, Pow2(b)) != 0 <==> Bit(w, b)
  {
    var v := And(w, Pow2(b));
    AndBit(w, Pow2(b), b);
    ShlBit(b, b);
    if v == 0 {
      ZeroBits(b);
    } else {
      NonZero(v);
      AndBit(w, Pow2(b), Ctz(v));
      ShlBit(b, Ctz(v));
    }
  }

  // Scanning for the next bit

  /** No bit from `from` up to `to`. */
  ghost predicate NoneIn(ws: seq<nat>, k: nat, from: nat, to: nat)
    requires k > 0
  {
    forall i: nat {:trigger At(ws, k, i)} :: from <= i < to ==> !At(ws, k, i)
  }

  /** `r` is the first bit from `from` on. */
  ghost predicate FirstFrom(ws: seq<nat>, k: nat, from: nat, r: nat)
    requires k > 0
  {
    from <= r && At(ws, k, r) && NoneIn(ws, k, from, r)
  }

  /** `w` has the bits of word `i` from `from` on. */
  ghost predicate Masked(ws: seq<nat>, k: nat, from: nat, i: nat, w: nat)
    requires k > 0
  {
    i < |ws| && w < Pow2(k) && forall b: nat :: b < k ==> (Bit(w, b) <==> Bit(ws[i], b) && from <= Join(i, b, k))
  }

  lemma MaskedWhole(ws: seq<nat>, k: nat, from: nat, i: nat)
    requires k > 0 && i < |ws| && Words(ws, k) && from <= Join(i, 0, k)
    ensures Masked(ws, k, from, i, ws[i])
  {
    forall b: nat | b < k
      ensures from <= Join(i, b, k)
    {
      JoinUp(i, b, k);
    }
  }

  lemma {:induction false} JoinUp(c: nat, e: nat, k: nat)
    ensures Join(c, e, k) == Join(c, 0, k) + e
    ensures Join(c + 1, 0, k) == Join(c, 0, k) + k
  {
    if c > 0 {
      JoinUp(c - 1, e, k);
    }
  }

  /** `w & ~( ( 1 << j ) - 1 )` at the word of `from`. */
  lemma MaskedPart(ws: seq<nat>, k: nat, from: nat, w: nat)
    requires k > 0 && High(from, k) < |ws| && Words(ws, k) && w == And(ws[High(from, k)], Not(Pow2(Low(from, k)) - 1, k))
    ensures Masked(ws, k, from, High(from, k), w)
  {
    var i := High(from, k);
    AndBound(ws[i], Not(Pow2(Low(from, k)) - 1, k));
    JoinSplit(from, k);
    JoinUp(i, Low(from, k), k);
    forall b: nat | b < k
      ensures Bit(w, b) <==> Bit(ws[i], b) && from <= Join(i, b, k)
    {
      AndBit(ws[i], Not(Pow2(Low(from, k)) - 1, k), b);
      NotBit(Pow2(Low(from, k)) - 1, k, b);
      MaskBit(Low(from, k), b);
      JoinUp(i, b, k);
    }
  }

  /** Bits in word `i` are between its ends. */
  lemma WordOf(j: nat, i: nat, k: nat)
    requires k > 0 && Join(i, 0, k) <= j
    ensures j < Join(i + 1, 0, k) <==> High(j, k) == i
  {
    SplitBound(j, i, k);
    SplitBound(j, i + 1, k);
  }

  /** The word is zero: the scan moves on. */
  lemma SkipWord(ws: seq<nat>, k: nat, from: nat, i: nat)
    requires k > 0 && Masked(ws, k, from, i, 0) && NoneIn(ws, k, from, Join(i, 0, k))
    ensures NoneIn(ws, k, from, Join(i + 1, 0, k))
  {
    forall j: nat | from <= j < Join(i + 1, 0, k)
      ensures !At(ws, k, j)
    {
      if j >= Join(i, 0, k) {
        WordOf(j, i, k);
        JoinSplit(j, k);
        ZeroBits(Low(j, k));
      }
    }
  }

  /** It is not: its lowest bit is the next one. */
  lemma FoundWord(ws: seq<nat>, k: nat, from: nat, i: nat, w: nat)
    requires k > 0 && Masked(ws, k, from, i, w) && w > 0 && NoneIn(ws, k, from, Join(i, 0, k))
    ensures Ctz(w) < k && FirstFrom(ws, k, from, Join(i, Ctz(w), k))
  {
    CtzBelow(w, k);
    NonZero(w);
    var r := Join(i, Ctz(w), k);
    SplitJoin(i, Ctz(w), k);
    forall j: nat | from <= j < r
      ensures !At(ws, k, j)
    {
      if j >= Join(i, 0, k) {
        SplitOrder(j, r, k);
        SplitBound(j, i, k);
        JoinSplit(j, k);
      }
    }
  }

  /** Past the last word there is nothing. */
  lemma NoneLeft(ws: seq<nat>, k: nat, from: nat)
    requires k > 0 && NoneIn(ws, k, from, Join(|ws|, 0, k))
    ensures forall i: nat :: from <= i ==> !At(ws, k, i)
  {
    forall i: nat | from <= i
      ensures !At(ws, k, i)
    {
      SplitBound(i, |ws|, k);
    }
  }

  // Words as digits

  lemma PowJoin(a: nat, k: nat)
    ensures Join(Pow2(a), 0, Pow2(k)) == Pow2(a + k)
  {
    JoinIsMulAdd(Pow2(a), 0, Pow2(k));
    Pow2Add(a, k);
  }

  lemma {:induction false} ValueBound(ws: seq<nat>, k: nat)
    requires Words(ws, k)
    ensures Value(ws, k) < Pow2(Join(|ws|, 0, k))
  {
    if ws != [] {
      var c, q := Value(ws[1..], k), Pow2(Join(|ws| - 1, 0, k));
      ValueBound(ws[1..], k);
      PowJoin(Join(|ws| - 1, 0, k), k);
      JoinUp(|ws| - 1, 0, k);
      DigitBound(c, ws[0], q, Pow2(k));
    }
  }

  lemma DigitBound(c: nat, e: nat, q: nat, p: nat)
    requires c < q && e < p
    ensures Join(c, e, p) < Join(q, 0, p)
  {
    SplitJoin(c, e, p);
    SplitBound(Join(c, e, p), q, p);
  }

  /** One more, with the carry from word to word. */
  function Inc(ws: seq<nat>, k: nat): (r: seq<nat>)
    ensures |r| == |ws|
  {
    if ws == [] then [] else if ws[0] + 1 == Pow2(k) then [0] + Inc(ws[1..], k) else [ws[0] + 1] + ws[1..]
  }

  /** The carry goes through the full words. */
  lemma {:induction false} IncIs(ws: seq<nat>, r: seq<nat>, i: nat, k: nat)
    requires i <= |ws| == |r| && forall j :: 0 <= j < i ==> r[j] == 0 && ws[j] + 1 == Pow2(k)
    requires i < |ws| ==> ws[i] + 1 != Pow2(k) && r[i] == ws[i] + 1
    requires forall j :: i < j < |ws| ==> r[j] == ws[j]
    ensures r == Inc(ws, k)
  {
    if i > 0 {
      IncIs(ws[1..], r[1..], i - 1, k);
    }
  }

  lemma {:induction false} IncValue(ws: seq<nat>, k: nat)
    requires Words(ws, k)
    ensures Words(Inc(ws, k), k)
    ensures Value(Inc(ws, k), k) == if Value(ws, k) + 1 == Pow2(Join(|ws|, 0, k)) then 0 else Value(ws, k) + 1
  {
    if ws != [] {
      IncValue(ws[1..], k);
      ValueBound(ws[1..], k);
      PowJoin(Join(|ws| - 1, 0, k), k);
      JoinUp(|ws| - 1, 0, k);
      IncDigit(Value(ws[1..], k), ws[0], Pow2(Join(|ws| - 1, 0, k)), Pow2(k));
    }
  }

  /** One more in the low digit, with or without a carry. */
  lemma IncDigit(v: nat, e: nat, q: nat, p: nat)
    requires v < q && e < p
    ensures e + 1 == p ==> Join(if v + 1 == q then 0 else v + 1, 0, p) == if Join(v, e, p) + 1 == Join(q, 0, p) then 0 else Join(v, e, p) + 1
    ensures e + 1 < p ==> Join(v, e + 1, p) == Join(v, e, p) + 1 < Join(q, 0, p)
  {
    JoinUp(v, e, p);
    JoinUp(v, e + 1, p);
    SplitJoin(v + 1, 0, p);
    SplitJoin(q, 0, p);
    if e + 1 < p {
      DigitBound(v, e + 1, q, p);
    }
  }

  // The last word

  /** The words past the end of `size` bits cleared. */
  lemma TrimLast(ws: seq<nat>, k: nat, size: nat, cut: seq<nat>)
    requires k > 0 && size > 0 && |ws| == WordsFor(size, k) && Words(ws, k)
    requires cut == if Low(size, k) == 0 then ws else ws[|ws| - 1 := And(ws[|ws| - 1], Pow2(Low(size, k)) - 1)]
    ensures Words(cut, k) && forall i: nat :: At(cut, k, i) <==> At(ws, k, i) && i < size
  {
    LastWord(size, k);
    var m := Pow2(Low(size, k)) - 1;
    AndBound(ws[|ws| - 1], m);
    forall i: nat
      ensures At(cut, k, i) <==> At(ws, k, i) && i < size
    {
      SplitOrder(i, size, k);
      AndBit(ws[|ws| - 1], m, Low(i, k));
      MaskBit(Low(size, k), Low(i, k));
    }
  }

  /** The last word is the one of the end, unless it is full. */
  lemma LastWord(size: nat, k: nat)
    requires k > 0 && size > 0
    ensures WordsFor(size, k) == if Low(size, k) == 0 then High(size, k) else High(size, k) + 1
    ensures size <= Join(WordsFor(size, k), 0, k) < size + k
    ensures Low(size, k) == 0 ==> size == Join(WordsFor(size, k), 0, k)
    ensures Low(size, k) > 0 ==> Join(WordsFor(size, k), 0, k) - size == k - Low(size, k)
  {
    JoinSplit(size - 1, k);
    LastPlace(High(size - 1, k), Low(size - 1, k), k, size);
  }

  lemma LastPlace(h: nat, l: nat, k: nat, size: nat)
    requires l < k && Join(h, l, k) + 1 == size
    ensures Join(h + 1, 0, k) == size + k - l - 1
    ensures if l + 1 == k then High(size, k) == h + 1 && Low(size, k) == 0 else High(size, k) == h && Low(size, k) == l + 1
  {
    JoinUp(h, l, k);
    if l + 1 < k {
      JoinUp(h, l + 1, k);
      SplitJoin(h, l + 1, k);
    } else {
      SplitJoin(h + 1, 0, k);
    }
  }

  // Counting

  /** The number of bits of `w` below `b`. */
  function BitsTo(w: nat, b: nat): nat {
    if b == 0 then 0 else BitsTo(w, b - 1) + if Bit(w, b - 1) then 1 else 0
  }

  /** The number of bits of `ws` below `n`. */
  function CountTo(ws: seq<nat>, k: nat, n: nat): nat
    requires k > 0
  {
    if n == 0 then 0 else CountTo(ws, k, n - 1) + if At(ws, k, n - 1) then 1 else 0
  }

  /** Clearing the lowest bit leaves one bit fewer. */
  lemma {:induction false} OneFewer(w: nat, b: nat)
    requires w > 0
    ensures BitsTo(w, b) == BitsTo(And(w, w - 1), b) + if Ctz(w) < b then 1 else 0
  {
    if b > 0 {
      OneFewer(w, b - 1);
      ClearLowest(w, b - 1);
      NonZero(w);
    }
  }

  lemma {:induction false} NoBits(b: nat)
    ensures BitsTo(0, b) == 0
  {
    if b > 0 {
      NoBits(b - 1);
      ZeroBits(b - 1);
    }
  }

  lemma {:induction false} CountWord(ws: seq<nat>, k: nat, j: nat, b: nat)
    requires j < |ws| && b <= k && k > 0
    ensures CountTo(ws, k, Join(j, b, k)) == CountTo(ws, k, Join(j, 0, k)) + BitsTo(ws[j], b)
  {
    if b > 0 {
      CountWord(ws, k, j, b - 1);
      JoinUp(j, b, k);
      JoinUp(j, b - 1, k);
      SplitJoin(j, b - 1, k);
    }
  }

  lemma {:induction false} CountPast(ws: seq<nat>, k: nat, a: nat, b: nat)
    requires k > 0 && a <= b && NoneIn(ws, k, a, b)
    ensures CountTo(ws, k, b) == CountTo(ws, k, a)
  {
    if a < b {
      CountPast(ws, k, a, b - 1);
    }
  }

  // Complement

  function Flip(ws: seq<nat>, k: nat): seq<nat> {
    seq(|ws|, j requires 0 <= j < |ws| => Not(ws[j], k))
  }

  lemma FlipAt(ws: seq<nat>, k: nat)
    requires k > 0
    ensures Words(Flip(ws, k), k)
    ensures forall i: nat :: At(Flip(ws, k), k, i) <==> High(i, k) < |ws| && !At(ws, k, i)
  {
    forall j | 0 <= j < |ws|
      ensures Not(ws[j], k) < Pow2(k)
    {
      NotBit(ws[j], k, 0);
    }
    forall i: nat
      ensures At(Flip(ws, k), k, i) <==> High(i, k) < |ws| && !At(ws, k, i)
    {
      if High(i, k) < |ws| {
        JoinSplit(i, k);
        NotBit(ws[High(i, k)], k, Low(i, k));
      }
    }
  }

  /** The complement of a number is its distance from the greatest. */
  lemma {:induction false} NotIsMinus(v: nat, n: nat)
    requires v < Pow2(n)
    ensures Not(v, n) == Pow2(n) - 1 - v
  {
    if n > 0 {
      NotIsMinus(v / 2, n - 1);
    }
  }

  // Intersection

  function Meet(ws: seq<nat>, vs: seq<nat>): seq<nat>
    requires |ws| == |vs|
  {
    seq(|ws|, j requires 0 <= j < |ws| => And(ws[j], vs[j]))
  }

  lemma MeetAt(ws: seq<nat>, vs: seq<nat>, k: nat)
    requires k > 0 && |ws| == |vs| && Words(ws, k)
    ensures Words(Meet(ws, vs), k)
    ensures forall i: nat :: At(Meet(ws, vs), k, i) <==> At(ws, k, i) && At(vs, k, i)
  {
    forall j | 0 <= j < |ws|
      ensures And(ws[j], vs[j]) < Pow2(k)
    {
      AndBound(ws[j], vs[j]);
    }
    forall i: nat
      ensures At(Meet(ws, vs), k, i) <==> At(ws, k, i) && At(vs, k, i)
    {
      if High(i, k) < |ws| {
        AndBit(ws[High(i, k)], vs[High(i, k)], Low(i, k));
      }
    }
  }

  // Shifts

  /** Whole words. */
  function ShiftWords(ws: seq<nat>, q: nat): seq<nat> {
    seq(|ws|, j requires 0 <= j < |ws| => if q <= j then ws[j - q] else 0)
  }

  lemma ShiftWordsAt(ws: seq<nat>, k: nat, q: nat)
    requires k > 0 && Words(ws, k)
    ensures Words(ShiftWords(ws, q), k)
    ensures forall i: nat :: At(ShiftWords(ws, q), k, i) <==>
      High(i, k) < |ws| && i >= Join(q, 0, k) && At(ws, k, i - Join(q, 0, k))
  {
    forall i: nat
      ensures At(ShiftWords(ws, q), k, i) <==>
        High(i, k) < |ws| && i >= Join(q, 0, k) && At(ws, k, i - Join(q, 0, k))
    {
      ShiftWordAt(ws, k, q, i);
    }
  }

  lemma ShiftWordAt(ws: seq<nat>, k: nat, q: nat, i: nat)
    requires k > 0 && Words(ws, k)
    ensures At(ShiftWords(ws, q), k, i) <==>
      High(i, k) < |ws| && i >= Join(q, 0, k) && At(ws, k, i - Join(q, 0, k))
  {
    SplitBound(i, q, k);
    if High(i, k) >= q {
      HighMinus(i, q, k);
    }
    ZeroBits(Low(i, k));
  }

  lemma {:induction false} HighMinus(i: nat, q: nat, k: nat)
    requires k > 0 && High(i, k) >= q
    ensures i >= Join(q, 0, k)
    ensures High(i - Join(q, 0, k), k) == High(i, k) - q && Low(i - Join(q, 0, k), k) == Low(i, k)
  {
    if q > 0 {
      HighMinus(i - k, q - 1, k);
    }
  }

  /** Bits within a word: `( w << s ) | ( below >> ( k - s ) )`. */
  function ShiftWord(w: nat, below: nat, s: nat, k: nat): nat
    requires s <= k
  {
    Or(Low(w * Pow2(s), Pow2(k)), High(below, Pow2(k - s)))
  }

  lemma ShiftWordBit(w: nat, below: nat, s: nat, k: nat, b: nat)
    requires s <= k && below < Pow2(k)
    ensures ShiftWord(w, below, s, k) < Pow2(k)
    ensures Bit(ShiftWord(w, below, s, k), b) <==> b < k && if b >= s then Bit(w, b - s) else Bit(below, b + k - s)
  {
    var x, y := Low(w * Pow2(s), Pow2(k)), High(below, Pow2(k - s));
    OrBit(x, y, b);
    LowBit(w * Pow2(s), k, b);
    ShiftBit(w, s, b);
    UnshiftBit(below, k - s, b);
    if b >= s {
      HighBits(below, k, b + k - s);
    }
    JoinSplit(w * Pow2(s), Pow2(k));
    HighBound(below, k - s);
    OrBound(x, y, k);
  }

  lemma HighBound(v: nat, s: nat)
    ensures High(v, Pow2(s)) <= v
  {
    DivMod(v, Pow2(s));
  }

  function ShiftBits(ws: seq<nat>, s: nat, k: nat): seq<nat>
    requires s <= k
  {
    seq(|ws|, j requires 0 <= j < |ws| => ShiftWord(ws[j], if j == 0 then 0 else ws[j - 1], s, k))
  }

  lemma ShiftBitsAt(ws: seq<nat>, k: nat, s: nat)
    requires k > 0 && s < k && Words(ws, k)
    ensures Words(ShiftBits(ws, s, k), k)
    ensures forall i: nat :: At(ShiftBits(ws, s, k), k, i) <==> High(i, k) < |ws| && i >= s && At(ws, k, i - s)
  {
    forall j | 0 <= j < |ws|
      ensures ShiftBits(ws, s, k)[j] < Pow2(k)
    {
      ShiftWordBit(ws[j], if j == 0 then 0 else ws[j - 1], s, k, 0);
    }
    forall i: nat
      ensures At(ShiftBits(ws, s, k), k, i) <==> High(i, k) < |ws| && i >= s && At(ws, k, i - s)
    {
      if High(i, k) < |ws| {
        ShiftBitAt(ws, k, s, i);
      }
    }
  }

  lemma ShiftBitAt(ws: seq<nat>, k: nat, s: nat, i: nat)
    requires k > 0 && s < k && Words(ws, k) && High(i, k) < |ws|
    ensures At(ShiftBits(ws, s, k), k, i) <==> i >= s && At(ws, k, i - s)
  {
    var h, l := High(i, k), Low(i, k);
    ShiftWordBit(ws[h], if h == 0 then 0 else ws[h - 1], s, k, l);
    JoinSplit(i, k);
    Back(i, h, l, k, s);
    ZeroBits(l + k - s);
  }

  /** The place `s` bits below. */
  lemma Back(i: nat, h: nat, l: nat, k: nat, s: nat)
    requires s < k && l < k && i == Join(h, l, k)
    ensures i >= s <==> l >= s || h > 0
    ensures l >= s ==> High(i - s, k) == h && Low(i - s, k) == l - s
    ensures l < s && h > 0 ==> High(i - s, k) == h - 1 && Low(i - s, k) == l + k - s
  {
    JoinUp(h, l, k);
    if l >= s {
      JoinUp(h, l - s, k);
      SplitJoin(h, l - s, k);
    } else if h > 0 {
      JoinUp(h - 1, l + k - s, k);
      SplitJoin(h - 1, l + k - s, k);
    }
  }
}
