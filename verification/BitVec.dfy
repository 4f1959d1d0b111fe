/** The bit vector whose size is given at run time (`_simple_bitvec`). */
module BitVec {
  import opened Bits
  import opened Split
  import opened BitWords

  class BitVec {
    const size: nat
    /** The bits of a word. */
    const k: nat
    const words: array<nat>

    /** Beyond the last bit everything is clear. */
    ghost predicate Valid()
      reads words
    {
      k > 0 && Clean(words[..], k, size)
    }

    ghost predicate Has(i: nat)
      reads words
      requires k > 0
    {
      At(words[..], k, i)
    }

    /** The vector as a number. */
    ghost function Number(): nat
      reads words
    {
      Value(words[..], k)
    }

    constructor (size: nat, k: nat)
      requires k > 0
      ensures Valid() && this.size == size && this.k == k && fresh(words)
      ensures forall i: nat :: !Has(i)
    {
      this.size, this.k := size, k;
      words := new nat[WordsFor(size, k)](_ => 0);
      new;
      forall i: nat
        ensures !At(words[..], k, i)
      {
        ZeroBits(Low(i, k));
      }
    }

    method SetBit(i: nat)
      requires Valid() && i < size
      modifies words
      ensures Valid() && forall j: nat :: Has(j) <==> old(Has(j)) || j == i
    {
      Inside(i);
      SetAt(words[..], k, i);
      ghost var ws := words[..];
      words[High(i, k)] := Or(words[High(i, k)], Pow2(Low(i, k)));
      assert words[..] == ws[High(i, k) := Or(ws[High(i, k)], Pow2(Low(i, k)))];
    }

    method ClearBit(i: nat)
      requires Valid() && i < size
      modifies words
      ensures Valid() && forall j: nat :: Has(j) <==> old(Has(j)) && j != i
    {
      Inside(i);
      ClearAt(words[..], k, i);
      ghost var ws := words[..];
      words[High(i, k)] := And(words[High(i, k)], Not(Pow2(Low(i, k)), k));
      assert words[..] == ws[High(i, k) := And(ws[High(i, k)], Not(Pow2(Low(i, k)), k))];
    }

    method IsBitSet(i: nat) returns (r: bool)
      requires Valid() && i < size
      ensures r <==> Has(i)
    {
      Inside(i);
      TestAt(words[High(i, k)], Low(i, k));
      r := And(words[High(i, k)], Pow2(Low(i, k))) != 0;
    }

    lemma Inside(i: nat)
      requires Valid() && i < size
      ensures High(i, k) < words.Length
    {
      SplitOrder(size - 1, i, k);
    }

    // Scanning

    /** `r` is the first set bit from `from` on, or the size if there is none. */
    ghost predicate NextSet(from: nat, r: nat)
      requires k > 0
      reads words
    {
      if r < size then FirstFrom(words[..], k, from, r) else r == size && forall i: nat {:trigger Has(i)} {:trigger At(words[..], k, i)} :: from <= i ==> !Has(i)
    }

    /** `r` is the first clear bit from `from` on, or the size if there is none. */
    ghost predicate NextNotSet(from: nat, r: nat)
      requires k > 0
      reads words
    {
      && r <= size && (forall i: nat {:trigger At(words[..], k, i)} :: from <= i < r ==> Has(i))
      && (r < size ==> from <= r && !Has(r))
    }

    /** `_bv_get_first_set`, found with the most significant bit of the least significant one. */
    method FirstOf(w: nat) returns (r: nat)
      requires 0 < w < Pow2(k)
      ensures r == Ctz(w)
    {
      FirstSet(w, k);
      r := Msb(And(w, Not(And(w, w - 1), k)));
    }

    /** `_getset` */
    method GetSet(start: nat, ghost from: nat) returns (r: nat)
      requires Valid() && start <= words.Length && from <= Join(start, 0, k) && NoneIn(words[..], k, from, Join(start, 0, k))
      ensures NextSet(from, r)
    {
      var i := start;
      while i != words.Length
        invariant start <= i <= words.Length && from <= Join(i, 0, k) && NoneIn(words[..], k, from, Join(i, 0, k))
      {
        MaskedWhole(words[..], k, from, i);
        if words[i] != 0 {
          FoundWord(words[..], k, from, i, words[i]);
          var b := FirstOf(words[i]);
          return Join(i, b, k);
        }
        SkipWord(words[..], k, from, i);
        JoinUp(i, 0, k);
        i := i + 1;
      }
      NoneLeft(words[..], k, from);
      r := size;
    }

    method GetFirstSet() returns (r: nat)
      requires Valid()
      ensures NextSet(0, r)
    {
      r := GetSet(0, 0);
    }

    method GetNextSet(last: nat) returns (r: nat)
      requires Valid() && last <= size
      ensures NextSet(last + 1, r)
    {
      if last >= size {
        return size;
      }
      var i, from := High(last + 1, k), last + 1;
      StartOf(from);
      if Low(from, k) != 0 {
        var w := And(words[i], Not(Pow2(Low(from, k)) - 1, k));
        MaskedPart(words[..], k, from, w);
        if w != 0 {
          FoundWord(words[..], k, from, i, w);
          var b := FirstOf(w);
          return Join(i, b, k);
        }
        SkipWord(words[..], k, from, i);
        i := i + 1;
      }
      r := GetSet(i, from);
    }

    /** Where a scan from `from` begins. */
    lemma StartOf(from: nat)
      requires Valid() && 0 < from <= size
      ensures var h := High(from, k);
        && Join(h, 0, k) <= from < Join(h + 1, 0, k)
        && (if Low(from, k) == 0 then h <= words.Length && from == Join(h, 0, k) else h < words.Length)
    {
      JoinSplit(from, k);
      JoinUp(High(from, k), Low(from, k), k);
      LastWord(size, k);
      SplitBound(size, High(from, k), k);
      SplitOrder(size, from, k);
    }

    /** `_getnotset` */
    method GetNotSet(start: nat, ghost from: nat) returns (r: nat)
      requires Valid() && start <= words.Length && from <= Join(start, 0, k) && from <= size
      requires NoneIn(Flip(words[..], k), k, from, Join(start, 0, k))
      ensures NextNotSet(from, r)
    {
      var i := start;
      ghost var vs := Flip(words[..], k);
      FlipAt(words[..], k);
      while i != words.Length
        invariant start <= i <= words.Length && from <= Join(i, 0, k) && NoneIn(vs, k, from, Join(i, 0, k))
      {
        MaskedWhole(vs, k, from, i);
        var w := Not(words[i], k);
        if w != 0 {
          FoundWord(vs, k, from, i, w);
          var b := FirstOf(w);
          FirstClear(from, Join(i, b, k));
          return Join(i, b, k);
        }
        SkipWord(vs, k, from, i);
        JoinUp(i, 0, k);
        i := i + 1;
      }
      NoneClear(from);
      r := size;
    }

    lemma FirstClear(from: nat, r: nat)
      requires Valid() && from <= size && FirstFrom(Flip(words[..], k), k, from, r)
      ensures NextNotSet(from, r)
    {
      FlipAt(words[..], k);
      assert !Has(size);
      forall i: nat | from <= i < r
        ensures Has(i)
      {
        SplitOrder(r, i, k);
      }
    }

    lemma NoneClear(from: nat)
      requires Valid() && NoneIn(Flip(words[..], k), k, from, Join(words.Length, 0, k))
      ensures NextNotSet(from, size)
    {
      FlipAt(words[..], k);
      forall i: nat | from <= i < size
        ensures Has(i)
      {
        Inside(i);
        SplitBound(i, words.Length, k);
        assert !At(Flip(words[..], k), k, i);
      }
    }

    method GetNextNotSet(last: nat) returns (r: nat)
      requires Valid() && last <= size
      ensures NextNotSet(last + 1, r)
    {
      if last >= size {
        return size;
      }
      var i, from := High(last + 1, k), last + 1;
      StartOf(from);
      ghost var vs := Flip(words[..], k);
      FlipAt(words[..], k);
      if Low(from, k) != 0 {
        var w := And(Not(words[i], k), Not(Pow2(Low(from, k)) - 1, k));
        MaskedPart(vs, k, from, w);
        if w != 0 {
          FoundWord(vs, k, from, i, w);
          var b := FirstOf(w);
          FirstClear(from, Join(i, b, k));
          return Join(i, b, k);
        }
        SkipWord(vs, k, from, i);
        i := i + 1;
      }
      r := GetNotSet(i, from);
    }

    /** `_NIntersection` */
    method GetMeet(that: BitVec, start: nat, ghost from: nat) returns (r: nat)
      requires Valid() && that.Valid() && that.size == size && that.k == k
      requires start <= words.Length && from <= Join(start, 0, k)
      requires NoneIn(Meet(words[..], that.words[..]), k, from, Join(start, 0, k))
      ensures NextCommon(that, from, r)
    {
      var i := start;
      ghost var vs := Meet(words[..], that.words[..]);
      MeetAt(words[..], that.words[..], k);
      while i != words.Length
        invariant start <= i <= words.Length && from <= Join(i, 0, k) && NoneIn(vs, k, from, Join(i, 0, k))
      {
        MaskedWhole(vs, k, from, i);
        var w := And(words[i], that.words[i]);
        if w != 0 {
          FoundWord(vs, k, from, i, w);
          var b := FirstOf(w);
          FirstCommon(that, from, Join(i, b, k));
          return Join(i, b, k);
        }
        SkipWord(vs, k, from, i);
        JoinUp(i, 0, k);
        i := i + 1;
      }
      NoneLeft(vs, k, from);
      NoCommon(that, from);
      r := size;
    }

    /** `r` is the first bit from `from` on that is set in both, or the size if there is none. */
    ghost predicate NextCommon(that: BitVec, from: nat, r: nat)
      requires k > 0 && that.k == k
      reads words, that.words
    {
      if r < size then from <= r && Has(r) && that.Has(r) && forall i: nat :: from <= i < r ==> !(Has(i) && that.Has(i))
      else r == size && forall i: nat :: from <= i ==> !(Has(i) && that.Has(i))
    }

    lemma FirstCommon(that: BitVec, from: nat, r: nat)
      requires Valid() && that.Valid() && that.size == size && that.k == k
      requires FirstFrom(Meet(words[..], that.words[..]), k, from, r)
      ensures NextCommon(that, from, r)
    {
      MeetAt(words[..], that.words[..], k);
      forall i: nat | from <= i < r
        ensures !(Has(i) && that.Has(i))
      {
        assert !At(Meet(words[..], that.words[..]), k, i);
      }
    }

    lemma NoCommon(that: BitVec, from: nat)
      requires Valid() && that.Valid() && that.size == size && that.k == k
      requires forall i: nat :: from <= i ==> !At(Meet(words[..], that.words[..]), k, i)
      ensures NextCommon(that, from, size)
    {
      MeetAt(words[..], that.words[..], k);
    }

    method NextIntersection(that: BitVec, last: nat) returns (r: nat)
      requires Valid() && that.Valid() && that.size == size && that.k == k && last < size
      ensures NextCommon(that, last + 1, r)
    {
      var i, from := High(last + 1, k), last + 1;
      StartOf(from);
      ghost var vs := Meet(words[..], that.words[..]);
      MeetAt(words[..], that.words[..], k);
      if Low(from, k) != 0 {
        var w := And(And(words[i], that.words[i]), Not(Pow2(Low(from, k)) - 1, k));
        MaskedPart(vs, k, from, w);
        if w != 0 {
          FoundWord(vs, k, from, i, w);
          var b := FirstOf(w);
          FirstCommon(that, from, Join(i, b, k));
          return Join(i, b, k);
        }
        SkipWord(vs, k, from, i);
        i := i + 1;
      }
      r := GetMeet(that, i, from);
    }

    /** `getclearfirstset` */
    method GetClearFirstSet() returns (r: nat)
      requires Valid()
      modifies words
      ensures Valid() && old(NextSet(0, r))
      ensures forall j: nat :: Has(j) <==> old(Has(j)) && j != r
    {
      var i := 0;
      while i != words.Length
        invariant i <= words.Length && NoneIn(words[..], k, 0, Join(i, 0, k)) && words[..] == old(words[..])
      {
        MaskedWhole(words[..], k, 0, i);
        if words[i] != 0 {
          FoundWord(words[..], k, 0, i, words[i]);
          var b := FirstOf(words[i]);
          r := Join(i, b, k);
          ClearFirst(i, b);
          return;
        }
        SkipWord(words[..], k, 0, i);
        i := i + 1;
      }
      NoneLeft(words[..], k, 0);
      r := size;
    }

    /** The lowest bit of a word is cleared. */
    method ClearFirst(i: nat, b: nat)
      requires Valid() && i < words.Length && words[i] > 0 && b == Ctz(words[i]) < k
      modifies words
      ensures Valid() && forall j: nat :: Has(j) <==> old(Has(j)) && j != Join(i, b, k)
    {
      LowestAt(words[..], k, i);
      ghost var ws := words[..];
      words[i] := And(words[i], words[i] - 1);
      assert words[..] == ws[i := And(ws[i], ws[i] - 1)];
    }

    method CountSetBits() returns (r: nat)
      requires Valid()
      ensures r == CountTo(words[..], k, size)
    {
      r := 0;
      ghost var ws := words[..];
      for i := 0 to words.Length
        invariant r == CountTo(ws, k, Join(i, 0, k))
      {
        var el: nat := words[i];
        ghost var before: nat := r;
        while el != 0
          invariant el < Pow2(k) && r + BitsTo(el, k) == before + BitsTo(words[i], k)
        {
          OneFewer(el, k);
          CtzBelow(el, k);
          ClearLowest(el, 0);
          r, el := r + 1, And(el, el - 1);
        }
        NoBits(k);
        CountWord(ws, k, i, k);
        JoinUp(i, k, k);
      }
      if size > 0 {
        LastWord(size, k);
        CountPast(ws, k, size, Join(words.Length, 0, k));
      }
    }

    /** Every bit changes; the number becomes its distance from the greatest. */
    method Invert()
      requires Valid()
      modifies words
      ensures Valid() && forall j: nat :: Has(j) <==> j < size && !old(Has(j))
      ensures Number() == Pow2(size) - 1 - old(Number())
    {
      ghost var ws := words[..];
      if words.Length > 0 {
        FlipWords();
        FlipAt(ws, k);
        TrimEnd();
        forall j: nat
          ensures Has(j) <==> j < size && !At(ws, k, j)
        {
          if j < size {
            Inside(j);
          }
        }
      }
      Complement(ws, words[..]);
    }

    method FlipWords()
      modifies words
      ensures words[..] == Flip(old(words[..]), k)
    {
      for i := 0 to words.Length
        invariant forall j :: 0 <= j < words.Length ==> words[j] == if j < i then Not(old(words[..])[j], k) else old(words[..])[j]
      {
        words[i] := Not(words[i], k);
      }
    }

    /** What is past the end in the last word is cleared. */
    method TrimEnd()
      requires k > 0 && size > 0 && words.Length == WordsFor(size, k) && Words(words[..], k)
      modifies words
      ensures Valid() && forall j: nat :: At(words[..], k, j) <==> At(old(words[..]), k, j) && j < size
    {
      ghost var ws := words[..];
      var fill := Low(size, k);
      if fill != 0 {
        words[words.Length - 1] := And(words[words.Length - 1], Pow2(fill) - 1);
      }
      TrimLast(ws, k, size, words[..]);
    }

    lemma Complement(ws: seq<nat>, vs: seq<nat>)
      requires k > 0 && Clean(ws, k, size) && Clean(vs, k, size)
      requires forall j: nat :: At(vs, k, j) <==> j < size && !At(ws, k, j)
      ensures Value(vs, k) == Pow2(size) - 1 - Value(ws, k)
    {
      var v := Value(ws, k);
      SizeBound(ws);
      forall j: nat
        ensures At(vs, k, j) <==> Bit(Not(v, size), j)
      {
        NotBit(v, size, j);
        ValueBit(ws, k, j);
      }
      SameValue(vs, k, Not(v, size));
      NotIsMinus(v, size);
    }

    lemma SizeBound(ws: seq<nat>)
      requires k > 0 && Clean(ws, k, size)
      ensures Value(ws, k) < Pow2(size)
    {
      var v := Value(ws, k);
      forall j: nat
        ensures Bit(v, j) <==> Bit(Low(v, Pow2(size)), j)
      {
        LowBit(v, size, j);
        ValueBit(ws, k, j);
      }
      SameBits(v, Low(v, Pow2(size)));
      JoinSplit(v, Pow2(size));
    }

    /** One more, modulo the number of values of `size` bits. */
    method Increment()
      requires Valid()
      modifies words
      ensures Valid() && Number() == Low(old(Number()) + 1, Pow2(size))
    {
      if words.Length == 0 {
        return;
      }
      ghost var ws := words[..];
      var i := AddOne();
      ghost var vs := words[..];
      IncValue(ws, k);
      if i == words.Length - 1 {
        TrimEnd();
      } else {
        NothingPast(ws, vs, i);
      }
      IncMod(ws, vs, words[..]);
    }

    /** The loop of `increment`: where it stopped, every word below was full. */
    method AddOne() returns (i: nat)
      requires Valid()
      modifies words
      ensures words[..] == Inc(old(words[..]), k) && i <= words.Length
      ensures forall j :: i < j < words.Length ==> words[j] == old(words[j])
      ensures i == words.Length ==> forall j :: 0 <= j < words.Length ==> words[j] == 0
    {
      ghost var ws := words[..];
      i := 0;
      while i != words.Length
        invariant i <= words.Length && forall j :: i <= j < words.Length ==> words[j] == ws[j]
        invariant forall j :: 0 <= j < i ==> words[j] == 0 && ws[j] + 1 == Pow2(k)
      {
        words[i] := if words[i] + 1 == Pow2(k) then 0 else words[i] + 1;
        if words[i] != 0 {
          break;
        }
        i := i + 1;
      }
      IncIs(ws, words[..], i, k);
    }

    /** Only the last word can have got a bit past the end. */
    lemma NothingPast(ws: seq<nat>, vs: seq<nat>, i: nat)
      requires k > 0 && Clean(ws, k, size) && Words(vs, k) && |vs| == |ws| > 0 && i <= |ws| && i != |ws| - 1
      requires forall j :: i < j < |ws| ==> vs[j] == ws[j]
      requires i == |ws| ==> forall j :: 0 <= j < |ws| ==> vs[j] == 0
      ensures Clean(vs, k, size)
    {
      forall j: nat | At(vs, k, j)
        ensures j < size
      {
        if i == |ws| {
          ZeroBits(Low(j, k));
        } else {
          SplitOrder(size - 1, j, k);
          SplitOrder(j, size - 1, k);
          assert j >= size ==> At(ws, k, j);
        }
      }
    }

    lemma IncMod(ws: seq<nat>, vs: seq<nat>, us: seq<nat>)
      requires k > 0 && size > 0 && Clean(ws, k, size) && vs == Inc(ws, k) && Clean(us, k, size)
      requires forall j: nat :: At(us, k, j) <==> At(vs, k, j) && j < size
      ensures Value(us, k) == Low(Value(ws, k) + 1, Pow2(size))
    {
      var v, t := Value(ws, k), Join(|ws|, 0, k);
      IncValue(ws, k);
      ValueBound(ws, k);
      LastWord(size, k);
      assert Value(vs, k) == Low(v + 1, Pow2(t));
      forall j: nat
        ensures At(us, k, j) <==> Bit(Low(v + 1, Pow2(size)), j)
      {
        LowBit(v + 1, size, j);
        LowBit(v + 1, t, j);
        ValueBit(vs, k, j);
      }
      SameValue(us, k, Low(v + 1, Pow2(size)));
    }
  }
}
