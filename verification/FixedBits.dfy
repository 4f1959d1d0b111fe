/** The bit vector whose size is fixed at compile time (`FixedBV`). */
module FixedBits {
  import opened Bits
  import opened Split
  import opened BitWords

  class FixedBV {
    const size: nat
    /** The bits of a word. */
    const k: nat
    const words: array<nat>

    /** All bits past the end are zero. */
    ghost predicate Valid()
      reads words
    {
      k > 0 && size > 0 && Clean(words[..], k, size)
    }

    ghost predicate Has(i: nat)
      reads words
      requires k > 0
    {
      At(words[..], k, i)
    }

    ghost function Number(): nat
      reads words
    {
      Value(words[..], k)
    }

    constructor (size: nat, k: nat)
      requires k > 0 && size > 0
      ensures Valid() && this.size == size && this.k == k && fresh(words) && forall i: nat :: !Has(i)
    {
      this.size, this.k := size, k;
      words := new nat[WordsFor(size, k)](_ => 0);
      new;
      forall i: nat
        ensures !At(words[..], k, i)
      {
        ZeroBits(Low(i, k));
      }
    }

    /** `_Trim` */
    method Trim()
      requires k > 0 && size > 0 && words.Length == WordsFor(size, k) && Words(words[..], k)
      modifies words
      ensures Valid() && forall j: nat :: At(words[..], k, j) <==> At(old(words[..]), k, j) && j < size
    {
      ghost var ws := words[..];
      LastWord(size, k);
      var excess := Join(words.Length, 0, k) - size;
      ghost var fill := Low(size, k);
      JoinSplit(size, k);
      assert if fill == 0 then excess == 0 else k - excess == fill && excess > 0;
      if excess > 0 {
        words[words.Length - 1] := And(words[words.Length - 1], Pow2(k - excess) - 1);
        assert words[..] == ws[|ws| - 1 := And(ws[|ws| - 1], Pow2(fill) - 1)];
      }
      TrimLast(ws, k, size, words[..]);
    }

    /** `set( i, v )`, or nothing where it throws. */
    method Set(i: nat, v: bool) returns (ok: bool)
      requires Valid()
      modifies words
      ensures Valid() && ok == (i < size)
      ensures forall j: nat :: Has(j) <==> if ok && j == i then v else old(Has(j))
    {
      if i >= size {
        return false;
      }
      SplitOrder(size - 1, i, k);
      ghost var ws := words[..];
      var h, b := High(i, k), Pow2(Low(i, k));
      if v {
        SetAt(ws, k, i);
        words[h] := Or(words[h], b);
        assert words[..] == ws[h := Or(ws[h], b)];
      } else {
        ClearAt(ws, k, i);
        words[h] := And(words[h], Not(b, k));
        assert words[..] == ws[h := And(ws[h], Not(b, k))];
      }
      ok := true;
    }

    method Test(i: nat) returns (ok: bool, r: bool)
      requires Valid()
      ensures ok == (i < size) && (ok ==> (r <==> Has(i)))
    {
      if i >= size {
        return false, false;
      }
      SplitOrder(size - 1, i, k);
      TestAt(words[High(i, k)], Low(i, k));
      ok, r := true, And(words[High(i, k)], Pow2(Low(i, k))) != 0;
    }

    /** `invert` */
    method Invert()
      requires Valid()
      modifies words
      ensures Valid() && forall j: nat :: Has(j) <==> j < size && !old(Has(j))
    {
      ghost var ws := words[..];
      for i := 0 to words.Length
        invariant forall j :: 0 <= j < words.Length ==> words[j] == if j < i then Not(ws[j], k) else ws[j]
      {
        words[i] := Not(words[i], k);
      }
      assert words[..] == Flip(ws, k);
      FlipAt(ws, k);
      Trim();
      forall j: nat
        ensures At(words[..], k, j) <==> j < size && !At(ws, k, j)
      {
        if j < size {
          SplitOrder(size - 1, j, k);
        }
      }
    }

    /** `<<=`: multiplication by a power of two, modulo the number of values of `size` bits. */
    method ShiftLeft(shift: nat)
      requires Valid()
      modifies words
      ensures Valid() && forall j: nat :: Has(j) <==> shift <= j < size && old(Has(j - shift))
      ensures Number() == Low(old(Number()) * Pow2(shift), Pow2(size))
    {
      ghost var ws := words[..];
      var q, s := High(shift, k), Low(shift, k);
      JoinSplit(shift, k);
      JoinUp(q, s, k);
      Move(q, s);
      ghost var us := words[..];
      Trim();
      Shifted(ws, us, words[..], q, s, shift);
      ShiftedValue(ws, words[..], shift);
    }

    method Move(q: nat, s: nat)
      requires Valid() && s < k
      modifies words
      ensures words[..] == ShiftBits(ShiftWords(old(words[..]), q), s, k) && Words(words[..], k)
    {
      ghost var ws := words[..];
      ShiftWordsAt(ws, k, q);
      if q != 0 {
        MoveWords(q);
      } else {
        assert ShiftWords(ws, 0) == ws;
      }
      ShiftBitsAt(words[..], k, s);
      if s != 0 {
        MoveBits(s);
      } else {
        NoShift(words[..], k);
      }
    }

    /** The loop over whole words, from the last to the first. */
    method MoveWords(q: nat)
      modifies words
      ensures words[..] == ShiftWords(old(words[..]), q)
    {
      ghost var ws := words[..];
      var i := words.Length;
      while i > 0
        invariant i <= words.Length
        invariant forall j :: 0 <= j < words.Length ==> words[j] == if j < i then ws[j] else ShiftWords(ws, q)[j]
      {
        i := i - 1;
        words[i] := if q <= i then words[i - q] else 0;
      }
    }

    /** The loop over the bits carried from word to word. */
    method MoveBits(s: nat)
      requires 0 < s < k && words.Length > 0 && Words(words[..], k)
      modifies words
      ensures words[..] == ShiftBits(old(words[..]), s, k)
    {
      ghost var ws := words[..];
      var i := words.Length - 1;
      while i > 0
        invariant 0 <= i < words.Length
        invariant forall j :: 0 <= j < words.Length ==> words[j] == if j <= i then ws[j] else ShiftBits(ws, s, k)[j]
      {
        words[i] := ShiftWord(words[i], words[i - 1], s, k);
        i := i - 1;
      }
      words[0] := Low(words[0] * Pow2(s), Pow2(k));
      NothingBelow(ws[0], s, k);
    }

    lemma NothingBelow(w: nat, s: nat, k: nat)
      requires s <= k
      ensures ShiftWord(w, 0, s, k) == Low(w * Pow2(s), Pow2(k))
    {
    }

    lemma NoShift(vs: seq<nat>, k: nat)
      requires k > 0 && Words(vs, k)
      ensures ShiftBits(vs, 0, k) == vs
    {
      ShiftBitsAt(vs, k, 0);
      SameWords(ShiftBits(vs, 0, k), vs, k);
    }

    lemma Shifted(ws: seq<nat>, us: seq<nat>, ts: seq<nat>, q: nat, s: nat, shift: nat)
      requires k > 0 && s < k && shift == Join(q, 0, k) + s && Clean(ts, k, size) && |ws| == |ts| && Words(ws, k)
      requires us == ShiftBits(ShiftWords(ws, q), s, k)
      requires forall j: nat :: At(ts, k, j) <==> At(us, k, j) && j < size
      ensures forall j: nat :: At(ts, k, j) <==> shift <= j < size && At(ws, k, j - shift)
    {
      forall j: nat
        ensures At(ts, k, j) <==> shift <= j < size && At(ws, k, j - shift)
      {
        if j < size {
          SplitOrder(size - 1, j, k);
          ShiftedAt(ws, q, s, j, Join(q, 0, k));
        }
      }
    }

    lemma ShiftedAt(ws: seq<nat>, q: nat, s: nat, j: nat, d: nat)
      requires k > 0 && s < k && Words(ws, k) && High(j, k) < |ws| && d == Join(q, 0, k)
      ensures At(ShiftBits(ShiftWords(ws, q), s, k), k, j) <==> j >= d + s && At(ws, k, j - (d + s))
    {
      assert Words(ShiftWords(ws, q), k);
      ShiftBitAt(ShiftWords(ws, q), k, s, j);
      if j >= s {
        ShiftWordBack(ws, q, j, j - s, d);
      }
    }

    lemma ShiftWordBack(ws: seq<nat>, q: nat, j: nat, i: nat, d: nat)
      requires k > 0 && Words(ws, k) && High(j, k) < |ws| && d == Join(q, 0, k) && i <= j
      ensures At(ShiftWords(ws, q), k, i) <==> i >= d && At(ws, k, i - d)
    {
      SplitOrder(j, i, k);
      ShiftWordAt(ws, k, q, i);
    }

    lemma ShiftedValue(ws: seq<nat>, ts: seq<nat>, shift: nat)
      requires k > 0 && Clean(ws, k, size) && Clean(ts, k, size)
      requires forall j: nat :: At(ts, k, j) <==> shift <= j < size && At(ws, k, j - shift)
      ensures Value(ts, k) == Low(Value(ws, k) * Pow2(shift), Pow2(size))
    {
      var v := Value(ws, k) * Pow2(shift);
      forall j: nat
        ensures At(ts, k, j) <==> Bit(Low(v, Pow2(size)), j)
      {
        LowBit(v, size, j);
        ShiftBit(Value(ws, k), shift, j);
        if j >= shift {
          ValueBit(ws, k, j - shift);
        }
      }
      SameValue(ts, k, Low(v, Pow2(size)));
    }

    /** `get_next_bit`: the first bit from `start` on, which is one more than the index it is given, or 0 for
        the index that stands for none. */
    method GetNextBit(start: nat) returns (found: bool, r: nat)
      requires Valid()
      ensures if found then r < size && FirstFrom(words[..], k, start, r) else forall i: nat :: start <= i ==> !Has(i)
    {
      if start >= size {
        return false, 0;
      }
      var i := High(start, k);
      SplitOrder(size - 1, start, k);
      JoinSplit(start, k);
      JoinUp(i, Low(start, k), k);
      var mask := And(words[i], Not(Pow2(Low(start, k)) - 1, k));
      MaskedPart(words[..], k, start, mask);
      while true
        invariant i < words.Length && Masked(words[..], k, start, i, mask) && NoneIn(words[..], k, start, Join(i, 0, k))
        invariant start < Join(i + 1, 0, k)
        decreases words.Length - i
      {
        if mask != 0 {
          FoundWord(words[..], k, start, i, mask);
          return true, Join(i, Ctz(mask), k);
        }
        SkipWord(words[..], k, start, i);
        JoinUp(i + 1, 0, k);
        i := i + 1;
        if i == words.Length {
          break;
        }
        mask := words[i];
        MaskedWhole(words[..], k, start, i);
      }
      NoneLeft(words[..], k, start);
      found, r := false, 0;
    }
  }
}
