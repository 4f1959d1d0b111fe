/** Machine words.

    A word of `w` bits is a natural number below `Pow2(w)`. The bitwise operators are defined bit by bit
    from the low end, and each is tied to `Bit` by one lemma; arithmetic on words (the `- 1` of a mask,
    the `+ 1` of a carry) is ordinary arithmetic, so the two views can be mixed as the program mixes them.
  */
module Bits {
  function Pow2(n: nat): (p: nat)
    ensures p > 0
  {
    if n == 0 then 1 else 2 * Pow2(n - 1)
  }

  predicate Bit(w: nat, k: nat) {
    if k == 0 then w % 2 == 1 else Bit(w / 2, k - 1)
  }

  /** `a & b` */
  function And(a: nat, b: nat): nat {
    if a == 0 || b == 0 then 0 else 2 * And(a / 2, b / 2) + (a % 2) * (b % 2)
  }

  /** `a | b` */
  function Or(a: nat, b: nat): nat
    decreases a + b
  {
    if a == 0 then b else if b == 0 then a else
    2 * Or(a / 2, b / 2) + (if a % 2 == 1 || b % 2 == 1 then 1 else 0)
  }

  /** `~a` in a word of `n` bits */
  function Not(a: nat, n: nat): nat {
    if n == 0 then 0 else 2 * Not(a / 2, n - 1) + (1 - a % 2)
  }

  /** Index of the lowest set bit. */
  function Ctz(a: nat): nat
    requires a > 0
  {
    if a % 2 == 1 then 0 else 1 + Ctz(a / 2)
  }

  /** Index of the highest set bit; the count of leading zeros of an `n`-bit word is `n - 1 - Msb(a)`. */
  function Msb(a: nat): nat
    requires a > 0
  {
    if a == 1 then 0 else 1 + Msb(a / 2)
  }

  lemma {:induction false} Pow2Mono(a: nat, b: nat)
    requires a <= b
    ensures Pow2(a) <= Pow2(b)
    ensures a < b ==> Pow2(a) < Pow2(b)
  {
    if a < b {
      Pow2Mono(a, b - 1);
    }
  }

  lemma {:induction false} Pow2Add(a: nat, b: nat)
    ensures Pow2(a + b) == Pow2(a) * Pow2(b)
  {
    if a > 0 {
      Pow2Add(a - 1, b);
      assert Pow2(a) * Pow2(b) == 2 * (Pow2(a - 1) * Pow2(b));
    }
  }

  lemma {:induction false} ZeroBits(k: nat)
    ensures !Bit(0, k)
  {
    if k > 0 {
      ZeroBits(k - 1);
    }
  }

  /** A word has no bits past its width. */
  lemma {:induction false} HighBits(a: nat, n: nat, k: nat)
    requires a < Pow2(n) && n <= k
    ensures !Bit(a, k)
  {
    if n == 0 {
      ZeroBits(k);
    } else {
      HighBits(a / 2, n - 1, k - 1);
    }
  }

  /** A word is zero exactly when it has no bits. */
  lemma {:induction false} NonZero(a: nat)
    requires a > 0
    ensures Bit(a, Ctz(a))
    ensures forall k: nat :: k < Ctz(a) ==> !Bit(a, k)
  {
    if a % 2 == 0 {
      NonZero(a / 2);
    }
  }

  lemma {:induction false} MsbBits(a: nat)
    requires a > 0
    ensures Bit(a, Msb(a))
    ensures forall k: nat :: k > Msb(a) ==> !Bit(a, k)
    ensures Pow2(Msb(a)) <= a < Pow2(Msb(a) + 1)
  {
    if a == 1 {
      forall k: nat | k > 0
        ensures !Bit(1, k)
      {
        ZeroBits(k - 1);
      }
    } else {
      MsbBits(a / 2);
    }
  }

  lemma {:induction false} CtzBelow(a: nat, n: nat)
    requires 0 < a < Pow2(n)
    ensures Ctz(a) < n && Msb(a) < n
  {
    NonZero(a);
    MsbBits(a);
    if Ctz(a) >= n {
      HighBits(a, n, Ctz(a));
    }
    if Msb(a) >= n {
      HighBits(a, n, Msb(a));
    }
  }

  lemma {:induction false} AndBit(a: nat, b: nat, k: nat)
    ensures Bit(And(a, b), k) <==> Bit(a, k) && Bit(b, k)
  {
    if a == 0 || b == 0 {
      ZeroBits(k);
    } else {
      var d := And(a / 2, b / 2);
      assert (2 * d + (a % 2) * (b % 2)) / 2 == d;
      if k > 0 {
        AndBit(a / 2, b / 2, k - 1);
      }
    }
  }

  lemma {:induction false} OrBit(a: nat, b: nat, k: nat)
    ensures Bit(Or(a, b), k) <==> Bit(a, k) || Bit(b, k)
    decreases k
  {
    if a == 0 || b == 0 {
      ZeroBits(k);
    } else if k > 0 {
      OrBit(a / 2, b / 2, k - 1);
    }
  }

  lemma {:induction false} NotBit(a: nat, n: nat, k: nat)
    ensures Not(a, n) < Pow2(n)
    ensures Bit(Not(a, n), k) <==> k < n && !Bit(a, k)
    decreases n
  {
    if n == 0 {
      ZeroBits(k);
    } else {
      NotBit(a / 2, n - 1, if k == 0 then 0 else k - 1);
    }
  }

  /** `1 << j` has exactly bit `j`. */
  lemma {:induction false} ShlBit(j: nat, k: nat)
    ensures Bit(Pow2(j), k) <==> j == k
  {
    if j == 0 {
      if k > 0 {
        ZeroBits(k - 1);
      }
    } else if k > 0 {
      ShlBit(j - 1, k - 1);
    }
  }

  /** `(1 << j) - 1` has exactly the bits below `j`. */
  lemma {:induction false} MaskBit(j: nat, k: nat)
    ensures Bit(Pow2(j) - 1, k) <==> k < j
  {
    if j == 0 {
      ZeroBits(k);
    } else {
      assert (Pow2(j) - 1) / 2 == Pow2(j - 1) - 1;
      if k > 0 {
        MaskBit(j - 1, k - 1);
      }
    }
  }

  lemma {:induction false} AndBound(a: nat, b: nat)
    ensures And(a, b) <= a && And(a, b) <= b
  {
    if a != 0 && b != 0 {
      AndBound(a / 2, b / 2);
      assert (a % 2) * (b % 2) <= a % 2 && (a % 2) * (b % 2) <= b % 2;
    }
  }

  lemma {:induction false} OrBound(a: nat, b: nat, n: nat)
    requires a < Pow2(n) && b < Pow2(n)
    ensures Or(a, b) < Pow2(n)
    decreases n
  {
    if a != 0 && b != 0 {
      OrBound(a / 2, b / 2, n - 1);
    }
  }

  /** Words with the same bits are equal. */
  lemma {:induction false} SameBits(a: nat, b: nat)
    requires forall k: nat :: Bit(a, k) <==> Bit(b, k)
    ensures a == b
  {
    if a == 0 || b == 0 {
      if a > 0 {
        NonZero(a);
        ZeroBits(Ctz(a));
      }
      if b > 0 {
        NonZero(b);
        ZeroBits(Ctz(b));
      }
    } else {
      forall k: nat
        ensures Bit(a / 2, k) <==> Bit(b / 2, k)
      {
        assert Bit(a, k + 1) <==> Bit(b, k + 1);
      }
      SameBits(a / 2, b / 2);
      assert Bit(a, 0) <==> Bit(b, 0);
    }
  }
}
