/**
 The unsigned-integer operations of C that the Hilbert code uses, on unbounded
 naturals: a word is a `nat`, and `Bit(x, i)` is its i-th binary digit.
 */
module Bits {

  function Pow2(k: nat): (p: nat)
    ensures p >= 1
  {
    if k == 0 then 1 else 2 * Pow2(k - 1)
  }

  function Bit(x: nat, i: nat): bool {
    if i == 0 then x % 2 == 1 else Bit(x / 2, i - 1)
  }

  function Xor(x: nat, y: nat): nat
    decreases x + y
  {
    if x == 0 && y == 0 then 0
    else (if x % 2 == y % 2 then 0 else 1) + 2 * Xor(x / 2, y / 2)
  }

  function And(x: nat, y: nat): nat
    decreases x + y
  {
    if x == 0 && y == 0 then 0
    else (if x % 2 == 1 && y % 2 == 1 then 1 else 0) + 2 * And(x / 2, y / 2)
  }

  function Shl(x: nat, k: nat): nat {
    x * Pow2(k)
  }

  function Shr(x: nat, k: nat): nat {
    if k == 0 then x else Shr(x / 2, k - 1)
  }

  /** The number formed by the q low-order bits. */
  function Low(x: nat, q: nat): (r: nat)
    ensures r < Pow2(q)
  {
    if q == 0 then 0 else x % 2 + 2 * Low(x / 2, q - 1)
  }

  lemma {:induction false} BitXor(x: nat, y: nat, i: nat)
    ensures Bit(Xor(x, y), i) == (Bit(x, i) != Bit(y, i))
    decreases x + y, i
  {
    if x == 0 && y == 0 {
      BitZero(i);
    } else if i > 0 {
      BitXor(x / 2, y / 2, i - 1);
    }
  }

  lemma {:induction false} BitAnd(x: nat, y: nat, i: nat)
    ensures Bit(And(x, y), i) == (Bit(x, i) && Bit(y, i))
    decreases x + y, i
  {
    if x == 0 && y == 0 {
      BitZero(i);
    } else if i > 0 {
      BitAnd(x / 2, y / 2, i - 1);
    }
  }

  lemma {:induction false} BitZero(i: nat)
    ensures !Bit(0, i)
  {
    if i > 0 { BitZero(i - 1); }
  }

  lemma {:induction false} BitShr(x: nat, k: nat, i: nat)
    ensures Bit(Shr(x, k), i) == Bit(x, i + k)
  {
    if k > 0 { BitShr(x / 2, k - 1, i); }
  }

  lemma {:induction false} BitOnes(q: nat, i: nat)
    ensures Bit(Pow2(q) - 1, i) == (i < q)
  {
    if q == 0 {
      BitZero(i);
    } else {
      assert (Pow2(q) - 1) / 2 == Pow2(q - 1) - 1 && (Pow2(q) - 1) % 2 == 1;
      if i > 0 { BitOnes(q - 1, i - 1); }
    }
  }

  lemma {:induction false} BitPow2(q: nat, i: nat)
    ensures Bit(Pow2(q), i) == (i == q)
  {
    if q == 0 {
      if i > 0 { BitZero(i - 1); }
    } else if i > 0 {
      BitPow2(q - 1, i - 1);
    }
  }

  /** Numbers are determined by their bits. */
  lemma {:induction false} SameBits(x: nat, y: nat)
    requires forall i: nat :: Bit(x, i) == Bit(y, i)
    ensures x == y
    decreases x + y
  {
    assert Bit(x, 0) == Bit(y, 0);
    if x != 0 || y != 0 {
      forall i: nat ensures Bit(x / 2, i) == Bit(y / 2, i) {
        assert Bit(x, i + 1) == Bit(y, i + 1);
      }
      SameBits(x / 2, y / 2);
    }
  }

  /** x < 2^b exactly when no bit at or above b is set. */
  lemma {:induction false} NoHighBit(x: nat, b: nat, i: nat)
    requires x < Pow2(b) && b <= i
    ensures !Bit(x, i)
  {
    if b == 0 { BitZero(i); } else { NoHighBit(x / 2, b - 1, i - 1); }
  }

  lemma {:induction false} BelowByBits(x: nat, b: nat)
    requires forall i: nat | b <= i :: !Bit(x, i)
    ensures x < Pow2(b)
    decreases x
  {
    if x == 0 {
    } else if b == 0 {
      assert !Bit(x, 0);
      forall i: nat ensures !Bit(x / 2, i) { assert !Bit(x, i + 1); }
      BelowByBits(x / 2, 0);
    } else {
      forall i: nat | b - 1 <= i ensures !Bit(x / 2, i) { assert !Bit(x, i + 1); }
      BelowByBits(x / 2, b - 1);
    }
  }

  lemma {:induction false} LowSmall(x: nat, b: nat)
    requires x < Pow2(b)
    ensures Low(x, b) == x
  {
    if b > 0 { LowSmall(x / 2, b - 1); }
  }

  lemma {:induction false} LowNext(x: nat, q: nat)
    ensures Low(x, q + 1) == Low(x, q) + if Bit(x, q) then Pow2(q) else 0
  {
    if q > 0 { LowNext(x / 2, q - 1); }
  }

  lemma {:induction false} SplitAt(x: nat, q: nat)
    ensures x == Low(x, q) + Pow2(q) * Shr(x, q)
  {
    if q > 0 {
      SplitAt(x / 2, q - 1);
      PartsStep(x, q);
      hide Low, Shr, Pow2;
      DoubleProduct(Pow2(q - 1), Shr(x / 2, q - 1));
    }
  }

  lemma PartsStep(x: nat, q: nat)
    requires q > 0
    ensures Low(x, q) == 2 * Low(x / 2, q - 1) + x % 2 && Shr(x, q) == Shr(x / 2, q - 1) && Pow2(q) == 2 * Pow2(q - 1)
  {
  }

  lemma NoLowPart(x: nat)
    ensures Low(x, 0) == 0 && Pow2(0) == 1
  {
  }

  lemma DoubleProduct(a: nat, b: nat)
    ensures (2 * a) * b == 2 * (a * b)
  {
  }

  /** A word is determined by its low part and what lies above it. */
  lemma SameParts(x: nat, y: nat, q: nat)
    requires Low(x, q) == Low(y, q) && Shr(x, q) == Shr(y, q)
    ensures x == y
  {
    SplitAt(x, q);
    SplitAt(y, q);
  }

  lemma SameHigh(x: nat, y: nat, q: nat)
    requires forall i: nat | q <= i :: Bit(x, i) == Bit(y, i)
    ensures Shr(x, q) == Shr(y, q)
  {
    forall i: nat ensures Bit(Shr(x, q), i) == Bit(Shr(y, q), i) {
      BitShr(x, q, i);
      BitShr(y, q, i);
    }
    SameBits(Shr(x, q), Shr(y, q));
  }

  /** `x & Q` tests bit q when Q = 2^q. */
  lemma AndPow2(x: nat, q: nat)
    ensures And(x, Pow2(q)) != 0 <==> Bit(x, q)
  {
    BitAnd(x, Pow2(q), q);
    BitPow2(q, q);
    if And(x, Pow2(q)) == 0 {
      BitZero(q);
    } else if !Bit(x, q) {
      forall i: nat ensures Bit(And(x, Pow2(q)), i) == Bit(0, i) {
        BitAnd(x, Pow2(q), i);
        BitPow2(q, i);
        BitZero(i);
      }
      SameBits(And(x, Pow2(q)), 0);
    }
  }

  /** `x ^ (Q - 1)` complements the low q bits and leaves the rest. */
  lemma InvertLow(x: nat, q: nat)
    ensures var y := Xor(x, Pow2(q) - 1);
            Low(y, q) == Pow2(q) - 1 - Low(x, q) && Shr(y, q) == Shr(x, q)
  {
    var y := Xor(x, Pow2(q) - 1);
    forall i: nat ensures Bit(y, i) == if i < q then !Bit(x, i) else Bit(x, i) {
      BitXor(x, Pow2(q) - 1, i);
      BitOnes(q, i);
    }
    SameHigh(x, y, q);
    Complement(x, y, q);
  }

  lemma {:induction false} Complement(x: nat, y: nat, q: nat)
    requires forall i: nat | i < q :: Bit(y, i) != Bit(x, i)
    ensures Low(y, q) == Pow2(q) - 1 - Low(x, q)
  {
    hide Low, Bit, Shr, Pow2;
    if q == 0 {
      NoLowPart(x);
      NoLowPart(y);
    } else {
      Complement(x, y, q - 1);
      LowNext(x, q - 1);
      LowNext(y, q - 1);
      PartsStep(x, q);
    }
  }

  /** With t = (x ^ y) & (Q - 1), the word x ^ t has the low bits of y and the rest of x. */
  lemma ExchangeLow(x: nat, y: nat, q: nat)
    ensures var t := And(Xor(x, y), Pow2(q) - 1);
            && Low(Xor(x, t), q) == Low(y, q) && Shr(Xor(x, t), q) == Shr(x, q)
            && Low(Xor(y, t), q) == Low(x, q) && Shr(Xor(y, t), q) == Shr(y, q)
  {
    var t := And(Xor(x, y), Pow2(q) - 1);
    forall i: nat
      ensures Bit(Xor(x, t), i) == if i < q then Bit(y, i) else Bit(x, i)
      ensures Bit(Xor(y, t), i) == if i < q then Bit(x, i) else Bit(y, i)
    {
      BitAnd(Xor(x, y), Pow2(q) - 1, i);
      BitXor(x, y, i);
      BitOnes(q, i);
      BitXor(x, t, i);
      BitXor(y, t, i);
    }
    SameHigh(x, Xor(x, t), q);
    SameHigh(y, Xor(y, t), q);
    SameLow(y, Xor(x, t), q);
    SameLow(x, Xor(y, t), q);
  }

  lemma {:induction false} SameLow(x: nat, y: nat, q: nat)
    requires forall i: nat | i < q :: Bit(x, i) == Bit(y, i)
    ensures Low(x, q) == Low(y, q)
  {
    hide Low, Bit, Shr, Pow2;
    if q == 0 {
      NoLowPart(x);
      NoLowPart(y);
    } else {
      SameLow(x, y, q - 1);
      LowNext(x, q - 1);
      LowNext(y, q - 1);
    }
  }

  /** Bits of a number put together from a low part below 2^n and a high part. */
  lemma {:induction false} BitConcat(lo: nat, hi: nat, n: nat, p: nat)
    requires lo < Pow2(n)
    ensures Bit(lo + Pow2(n) * hi, p) == if p < n then Bit(lo, p) else Bit(hi, p - n)
  {
    if n > 0 {
      var rest := Pow2(n - 1) * hi;
      assert Pow2(n) * hi == 2 * rest;
      assert (lo + 2 * rest) / 2 == lo / 2 + rest && (lo + 2 * rest) % 2 == lo % 2;
      if p > 0 { BitConcat(lo / 2, hi, n - 1, p - 1); }
    }
  }

  lemma {:induction false} Pow2Add(m: nat, n: nat)
    ensures Pow2(m + n) == Pow2(m) * Pow2(n)
  {
    if m > 0 { Pow2Add(m - 1, n); }
  }

  /** Position of the lowest clear bit. */
  function LowZero(h: nat): nat {
    if h % 2 == 0 then 0 else 1 + LowZero(h / 2)
  }

  /** Adding one clears the run of ones below the lowest clear bit and sets that bit. */
  lemma {:induction false} BitSuccessor(h: nat, i: nat)
    ensures var z := LowZero(h);
            && Bit(h, i) == (if i < z then true else if i == z then false else Bit(h, i))
            && Bit(h + 1, i) == (if i < z then false else if i == z then true else Bit(h, i))
  {
    if h % 2 == 0 {
      assert (h + 1) / 2 == h / 2;
    } else {
      assert (h + 1) / 2 == h / 2 + 1;
      if i > 0 { BitSuccessor(h / 2, i - 1); }
    }
  }
}
