/**
 Skilling's Hilbert transform (contribs/skilling.c) for any number of bits b >= 1
 and any dimension n >= 1.  The two in-place procedures are methods on arrays,
 each equal to a function on sequences; the functions are shown to undo each
 other in both orders on coordinates below 2^b.
 */
module Hilbert {
  import opened Bits

  ghost predicate Bounded(s: seq<nat>, b: nat) {
    forall i | 0 <= i < |s| :: s[i] < Pow2(b)
  }

  // ---- One invert/exchange step -------------------------------------------

  /** What the loop body does for axis i and Q = 2^q.  For i = 0 the exchange branch changes nothing. */
  function Step(s: seq<nat>, i: nat, q: nat): (r: seq<nat>)
    requires i < |s|
    ensures |r| == |s|
  {
    var P := Pow2(q) - 1;
    if And(s[i], Pow2(q)) != 0 then s[0 := Xor(s[0], P)]
    else
      var t := And(Xor(s[0], s[i]), P);
      var u := s[0 := Xor(s[0], t)];
      u[i := Xor(u[i], t)]
  }

  /** The step leaves every bit from q upward alone; below q it mirrors axis 0 or swaps it with axis i. */
  lemma StepEffect(s: seq<nat>, i: nat, q: nat)
    requires i < |s|
    ensures var r := Step(s, i, q);
            && (forall k | 0 <= k < |s| :: Shr(r[k], q) == Shr(s[k], q))
            && (if Bit(s[i], q) then
                  && Low(r[0], q) == Pow2(q) - 1 - Low(s[0], q)
                  && (forall k | 0 < k < |s| :: r[k] == s[k])
                else
                  && Low(r[0], q) == Low(s[i], q)
                  && Low(r[i], q) == Low(s[0], q)
                  && (forall k | 0 < k < |s| && k != i :: r[k] == s[k]))
  {
    hide Xor, And, Pow2, Bit, Shr, Low;
    AndPow2(s[i], q);
    if Bit(s[i], q) {
      InvertLow(s[0], q);
    } else if i == 0 {
      XorSelf(s[0]);
      AndZero(Pow2(q) - 1);
      XorZero(s[0]);
    } else {
      ExchangeLow(s[0], s[i], q);
    }
  }

  lemma StepInvolution(s: seq<nat>, i: nat, q: nat)
    requires i < |s|
    ensures Step(Step(s, i, q), i, q) == s
  {
    var r := Step(s, i, q);
    StepEffect(s, i, q);
    StepEffect(r, i, q);
    BitShr(s[i], q, 0);
    BitShr(r[i], q, 0);
    var z := Step(r, i, q);
    SameParts(z[0], s[0], q);
    SameParts(z[i], s[i], q);
    assert forall k | 0 <= k < |s| :: z[k] == s[k];
  }

  lemma StepBounded(s: seq<nat>, i: nat, q: nat, b: nat)
    requires i < |s| && Bounded(s, b) && q < b
    ensures Bounded(Step(s, i, q), b)
  {
    var r := Step(s, i, q);
    StepEffect(s, i, q);
    forall k | 0 <= k < |s| ensures r[k] < Pow2(b) {
      forall l: nat | b <= l ensures !Bit(r[k], l) {
        BitShr(r[k], q, l - q);
        BitShr(s[k], q, l - q);
        NoHighBit(s[k], b, l);
      }
      BelowByBits(r[k], b);
    }
  }

  // ---- One level, all axes -------------------------------------------------

  /** Axes i, i-1, ..., 0 in that order: the body of the "undo" loop. */
  function LevelDown(s: seq<nat>, i: nat, q: nat): (r: seq<nat>)
    requires i < |s|
    ensures |r| == |s|
    decreases i
  {
    var u := Step(s, i, q);
    if i == 0 then u else LevelDown(u, i - 1, q)
  }

  /** Axes 0, 1, ..., i in that order: the body of the "inverse undo" loop. */
  function LevelUp(s: seq<nat>, i: nat, q: nat): (r: seq<nat>)
    requires i < |s|
    ensures |r| == |s|
  {
    Step(if i == 0 then s else LevelUp(s, i - 1, q), i, q)
  }

  lemma {:induction false} LevelUpUndoesDown(s: seq<nat>, i: nat, q: nat)
    requires i < |s|
    ensures LevelUp(LevelDown(s, i, q), i, q) == s
    decreases i
  {
    StepInvolution(s, i, q);
    if i > 0 { LevelUpUndoesDown(Step(s, i, q), i - 1, q); }
  }

  lemma {:induction false} LevelDownUndoesUp(s: seq<nat>, i: nat, q: nat)
    requires i < |s|
    ensures LevelDown(LevelUp(s, i, q), i, q) == s
  {
    var u := if i == 0 then s else LevelUp(s, i - 1, q);
    StepInvolution(u, i, q);
    if i > 0 { LevelDownUndoesUp(s, i - 1, q); }
  }

  lemma {:induction false} LevelDownBounded(s: seq<nat>, i: nat, q: nat, b: nat)
    requires i < |s| && Bounded(s, b) && q < b
    ensures Bounded(LevelDown(s, i, q), b)
    decreases i
  {
    StepBounded(s, i, q, b);
    if i > 0 { LevelDownBounded(Step(s, i, q), i - 1, q, b); }
  }

  lemma {:induction false} LevelUpBounded(s: seq<nat>, i: nat, q: nat, b: nat)
    requires i < |s| && Bounded(s, b) && q < b
    ensures Bounded(LevelUp(s, i, q), b)
  {
    if i > 0 { LevelUpBounded(s, i - 1, q, b); }
    StepBounded(if i == 0 then s else LevelUp(s, i - 1, q), i, q, b);
  }

  // ---- All levels ----------------------------------------------------------

  /** Levels 1, 2, ..., q. */
  function Undo(s: seq<nat>, q: nat): (r: seq<nat>)
    requires |s| > 0
    ensures |r| == |s|
  {
    if q == 0 then s else LevelDown(Undo(s, q - 1), |s| - 1, q)
  }

  /** Levels q, q-1, ..., 1. */
  function Redo(s: seq<nat>, q: nat): (r: seq<nat>)
    requires |s| > 0
    ensures |r| == |s|
    decreases q
  {
    if q == 0 then s else Redo(LevelUp(s, |s| - 1, q), q - 1)
  }

  lemma {:induction false} RedoUndoesUndo(s: seq<nat>, q: nat)
    requires |s| > 0
    ensures Redo(Undo(s, q), q) == s
  {
    if q > 0 {
      LevelUpUndoesDown(Undo(s, q - 1), |s| - 1, q);
      RedoUndoesUndo(s, q - 1);
    }
  }

  lemma {:induction false} UndoUndoesRedo(s: seq<nat>, q: nat)
    requires |s| > 0
    ensures Undo(Redo(s, q), q) == s
    decreases q
  {
    if q > 0 {
      var u := LevelUp(s, |s| - 1, q);
      UndoUndoesRedo(u, q - 1);
      LevelDownUndoesUp(s, |s| - 1, q);
    }
  }

  lemma {:induction false} UndoBounded(s: seq<nat>, q: nat, b: nat)
    requires |s| > 0 && Bounded(s, b) && q < b
    ensures Bounded(Undo(s, q), b)
  {
    if q > 0 {
      UndoBounded(s, q - 1, b);
      LevelDownBounded(Undo(s, q - 1), |s| - 1, q, b);
    }
  }

  lemma {:induction false} RedoBounded(s: seq<nat>, q: nat, b: nat)
    requires |s| > 0 && Bounded(s, b) && q < b
    ensures Bounded(Redo(s, q), b)
    decreases q
  {
    if q > 0 {
      LevelUpBounded(s, |s| - 1, q, b);
      RedoBounded(LevelUp(s, |s| - 1, q), q - 1, b);
    }
  }

  // ---- Gray code across the axes ------------------------------------------

  /** Every word is xored with its predecessor; the first with the last, shifted right by one. */
  function GrayDecode(s: seq<nat>): (r: seq<nat>)
    requires |s| > 0
    ensures |r| == |s|
  {
    seq(|s|, i requires 0 <= i < |s| =>
      if i == 0 then Xor(s[0], Shr(s[|s| - 1], 1)) else Xor(s[i], s[i - 1]))
  }

  /** s[0] ^ s[1] ^ ... ^ s[i] */
  function PrefixXor(s: seq<nat>, i: nat): nat
    requires i < |s|
  {
    if i == 0 then s[0] else Xor(s[i], PrefixXor(s, i - 1))
  }

  function Fold(x: nat, i: nat): nat {
    Xor(x, Shr(x, i))
  }

  /** The logarithmic loop `for (; i < b; i <<= 1) x ^= x >> i`. */
  function FoldAll(x: nat, i: nat, b: nat): nat
    requires i >= 1
    decreases b - i
  {
    if i < b then FoldAll(Fold(x, i), 2 * i, b) else x
  }

  function GrayEncode(s: seq<nat>, b: nat): (r: seq<nat>)
    requires |s| > 0
    ensures |r| == |s|
  {
    var n := |s|;
    var p := PrefixXor(s, n - 1);
    var last := FoldAll(p, 1, b);
    seq(n, i requires 0 <= i < n =>
      if i == n - 1 then last else Xor(PrefixXor(s, i), Xor(p, last)))
  }

  lemma XorSelf(x: nat)
    ensures Xor(x, x) == 0
  {
    forall i: nat ensures Bit(Xor(x, x), i) == Bit(0, i) { BitXor(x, x, i); BitZero(i); }
    SameBits(Xor(x, x), 0);
  }

  lemma XorZero(x: nat)
    ensures Xor(x, 0) == x
  {
    forall i: nat ensures Bit(Xor(x, 0), i) == Bit(x, i) { BitXor(x, 0, i); BitZero(i); }
    SameBits(Xor(x, 0), x);
  }

  lemma AndZero(y: nat)
    ensures And(0, y) == 0
  {
    forall i: nat ensures Bit(And(0, y), i) == Bit(0, i) { BitAnd(0, y, i); BitZero(i); }
    SameBits(And(0, y), 0);
  }

  /** x ^ y ^ (x ^ z) == y ^ z: every xor identity needed below is an instance. */
  lemma XorCancel(x: nat, y: nat, z: nat)
    ensures Xor(Xor(x, y), Xor(x, z)) == Xor(y, z)
    ensures Xor(Xor(y, x), Xor(z, x)) == Xor(y, z)
    ensures Xor(Xor(x, y), x) == y
    ensures Xor(x, Xor(x, y)) == y
    ensures Xor(x, Xor(y, x)) == y
    ensures Xor(Xor(x, y), y) == x
    ensures Xor(Xor(x, y), z) == Xor(x, Xor(y, z))
  {
    forall i: nat
      ensures Bit(Xor(Xor(x, y), Xor(x, z)), i) == Bit(Xor(y, z), i)
      ensures Bit(Xor(Xor(y, x), Xor(z, x)), i) == Bit(Xor(y, z), i)
      ensures Bit(Xor(Xor(x, y), x), i) == Bit(y, i)
      ensures Bit(Xor(x, Xor(x, y)), i) == Bit(y, i)
      ensures Bit(Xor(x, Xor(y, x)), i) == Bit(y, i)
      ensures Bit(Xor(Xor(x, y), y), i) == Bit(x, i)
      ensures Bit(Xor(Xor(x, y), z), i) == Bit(Xor(x, Xor(y, z)), i)
    {
      BitXor(Xor(x, y), Xor(x, z), i);
      BitXor(Xor(y, x), Xor(z, x), i);
      BitXor(Xor(x, y), x, i);
      BitXor(x, Xor(x, y), i);
      BitXor(x, Xor(y, x), i);
      BitXor(Xor(x, y), y, i);
      BitXor(Xor(x, y), z, i);
      BitXor(x, Xor(y, z), i);
      BitXor(x, y, i);
      BitXor(x, z, i);
      BitXor(y, z, i);
      BitXor(y, x, i);
      BitXor(z, x, i);
    }
    SameBits(Xor(Xor(x, y), Xor(x, z)), Xor(y, z));
    SameBits(Xor(Xor(y, x), Xor(z, x)), Xor(y, z));
    SameBits(Xor(Xor(x, y), x), y);
    SameBits(Xor(x, Xor(x, y)), y);
    SameBits(Xor(x, Xor(y, x)), y);
    SameBits(Xor(Xor(x, y), y), x);
    SameBits(Xor(Xor(x, y), z), Xor(x, Xor(y, z)));
  }

  lemma XorBelow(x: nat, y: nat, b: nat)
    requires x < Pow2(b) && y < Pow2(b)
    ensures Xor(x, y) < Pow2(b)
  {
    forall i: nat | b <= i ensures !Bit(Xor(x, y), i) {
      BitXor(x, y, i);
      NoHighBit(x, b, i);
      NoHighBit(y, b, i);
    }
    BelowByBits(Xor(x, y), b);
  }

  lemma {:induction false} ShrBelow(x: nat, i: nat, b: nat)
    requires x < Pow2(b)
    ensures Shr(x, i) < Pow2(b)
    ensures i >= b ==> Shr(x, i) == 0
  {
    forall l: nat | b <= l ensures !Bit(Shr(x, i), l) {
      BitShr(x, i, l);
      NoHighBit(x, b, l + i);
    }
    BelowByBits(Shr(x, i), b);
    if i >= b {
      forall l: nat | 0 <= l ensures !Bit(Shr(x, i), l) {
        BitShr(x, i, l);
        NoHighBit(x, b, l + i);
      }
      BelowByBits(Shr(x, i), 0);
    }
  }

  /** Folding twice by i is folding once by 2i. */
  lemma FoldTwice(x: nat, i: nat)
    ensures Fold(Fold(x, i), i) == Fold(x, 2 * i)
  {
    var y := Fold(x, i);
    forall l: nat ensures Bit(Fold(y, i), l) == Bit(Fold(x, 2 * i), l) {
      BitXor(y, Shr(y, i), l);
      BitShr(y, i, l);
      BitXor(x, Shr(x, i), l);
      BitXor(x, Shr(x, i), l + i);
      BitShr(x, i, l);
      BitShr(x, i, l + i);
      BitXor(x, Shr(x, 2 * i), l);
      BitShr(x, 2 * i, l);
    }
    SameBits(Fold(y, i), Fold(x, 2 * i));
  }

  lemma FoldBelow(x: nat, i: nat, b: nat)
    requires x < Pow2(b)
    ensures Fold(x, i) < Pow2(b)
  {
    ShrBelow(x, i, b);
    XorBelow(x, Shr(x, i), b);
  }

  /** The logarithmic loop inverts x ^ (x >> i) on b-bit words. */
  lemma {:induction false} FoldAllInverts(x: nat, i: nat, b: nat)
    requires x < Pow2(b) && i >= 1
    ensures FoldAll(Fold(x, i), i, b) == x
    decreases b - i
  {
    if i < b {
      FoldTwice(x, i);
      FoldAllInverts(x, 2 * i, b);
    } else {
      ShrBelow(x, i, b);
      XorZero(x);
    }
  }

  lemma {:induction false} FoldAllBelow(x: nat, i: nat, b: nat)
    requires x < Pow2(b) && i >= 1
    ensures FoldAll(x, i, b) < Pow2(b)
    decreases b - i
  {
    if i < b {
      FoldBelow(x, i, b);
      FoldAllBelow(Fold(x, i), 2 * i, b);
    }
  }

  /** The other order, from injectivity of the fold. */
  lemma {:induction false} FoldInvertsAll(x: nat, i: nat, b: nat)
    requires x < Pow2(b) && i >= 1
    ensures Fold(FoldAll(x, i, b), i) == x
    decreases b - i
  {
    if i < b {
      var y := Fold(x, i);
      FoldBelow(x, i, b);
      FoldInvertsAll(y, 2 * i, b);
      var z := FoldAll(y, 2 * i, b);
      FoldAllBelow(y, 2 * i, b);
      FoldTwice(z, i);
      FoldBelow(z, i, b);
      FoldAllInverts(Fold(z, i), i, b);
      FoldAllInverts(x, i, b);
    } else {
      ShrBelow(x, i, b);
      XorZero(x);
    }
  }

  lemma {:induction false} PrefixXorBelow(s: seq<nat>, i: nat, b: nat)
    requires i < |s| && Bounded(s, b)
    ensures PrefixXor(s, i) < Pow2(b)
  {
    if i > 0 {
      PrefixXorBelow(s, i - 1, b);
      XorBelow(s[i], PrefixXor(s, i - 1), b);
    }
  }

  lemma {:induction false} PrefixOfDecode(s: seq<nat>, i: nat)
    requires i < |s|
    ensures PrefixXor(GrayDecode(s), i) == Xor(s[i], Shr(s[|s| - 1], 1))
  {
    if i > 0 {
      PrefixOfDecode(s, i - 1);
      var t := Shr(s[|s| - 1], 1);
      XorCancel(s[i], s[i - 1], Xor(s[i - 1], t));
      XorCancel(s[i - 1], t, t);
    }
  }

  lemma GrayEncodeInverts(s: seq<nat>, b: nat)
    requires |s| > 0 && Bounded(s, b)
    ensures GrayEncode(GrayDecode(s), b) == s
  {
    hide Xor, Shr, Pow2, FoldAll, PrefixXor, GrayDecode;
    var n, d := |s|, GrayDecode(s);
    var last, t := s[n - 1], Shr(s[n - 1], 1);
    PrefixOfDecode(s, n - 1);
    FoldAllInverts(last, 1, b);
    XorCancel(last, t, t);
    var e := GrayEncode(d, b);
    assert e[n - 1] == last;
    forall i | 0 <= i < n ensures e[i] == s[i] {
      PrefixOfDecode(s, i);
      XorCancel(s[i], t, t);
    }
  }

  lemma GrayDecodeInverts(s: seq<nat>, b: nat)
    requires |s| > 0 && Bounded(s, b)
    ensures GrayDecode(GrayEncode(s, b)) == s
  {
    hide Xor, Shr, Pow2, FoldAll, PrefixXor, GrayEncode;
    var n, e := |s|, GrayEncode(s, b);
    var t := Shr(e[n - 1], 1);
    forall i | 0 <= i < n ensures GrayDecode(e)[i] == s[i] {
      EncodedWord(s, b, i);
      DecodedWord(s, i, t);
      if i > 0 { EncodedWord(s, b, i - 1); }
    }
  }

  /** Every encoded word is the prefix xor, with half the last word folded in. */
  lemma EncodedWord(s: seq<nat>, b: nat, i: nat)
    requires i < |s| && Bounded(s, b)
    ensures var e := GrayEncode(s, b); e[i] == Xor(PrefixXor(s, i), Shr(e[|s| - 1], 1))
  {
    hide Xor, Shr, Pow2, FoldAll, PrefixXor;
    var p := PrefixXor(s, |s| - 1);
    var last := FoldAll(p, 1, b);
    PrefixXorBelow(s, |s| - 1, b);
    FoldInvertsAll(p, 1, b);
    XorCancel(p, last, last);
    XorCancel(last, Shr(last, 1), last);
  }

  /** Decoding takes the prefix, and whatever was folded in, away again. */
  lemma DecodedWord(s: seq<nat>, i: nat, t: nat)
    requires i < |s|
    ensures i == 0 ==> Xor(Xor(PrefixXor(s, i), t), t) == s[i]
    ensures i > 0 ==> Xor(Xor(PrefixXor(s, i), t), Xor(PrefixXor(s, i - 1), t)) == s[i]
  {
    hide Xor;
    if i == 0 {
      XorCancel(s[0], t, t);
    } else {
      XorCancel(t, PrefixXor(s, i), PrefixXor(s, i - 1));
      XorCancel(s[i], PrefixXor(s, i - 1), t);
    }
  }

  lemma GrayDecodeBounded(s: seq<nat>, b: nat)
    requires |s| > 0 && Bounded(s, b)
    ensures Bounded(GrayDecode(s), b)
  {
    forall i | 0 <= i < |s| ensures GrayDecode(s)[i] < Pow2(b) {
      if i == 0 {
        ShrBelow(s[|s| - 1], 1, b);
        XorBelow(s[0], Shr(s[|s| - 1], 1), b);
      } else {
        XorBelow(s[i], s[i - 1], b);
      }
    }
  }

  lemma GrayEncodeBounded(s: seq<nat>, b: nat)
    requires |s| > 0 && Bounded(s, b)
    ensures Bounded(GrayEncode(s, b), b)
  {
    hide Xor, Pow2, FoldAll, PrefixXor;
    var n := |s|;
    var p := PrefixXor(s, n - 1);
    PrefixXorBelow(s, n - 1, b);
    FoldAllBelow(p, 1, b);
    XorBelow(p, FoldAll(p, 1, b), b);
    forall i | 0 <= i < n ensures GrayEncode(s, b)[i] < Pow2(b) {
      PrefixXorBelow(s, i, b);
      XorBelow(PrefixXor(s, i), Xor(p, FoldAll(p, 1, b)), b);
    }
  }

  // ---- The two transforms --------------------------------------------------

  function ToAxes(s: seq<nat>, b: nat): (r: seq<nat>)
    requires |s| > 0 && b > 0
    ensures |r| == |s|
  {
    Undo(GrayDecode(s), b - 1)
  }

  function ToTranspose(s: seq<nat>, b: nat): (r: seq<nat>)
    requires |s| > 0 && b > 0
    ensures |r| == |s|
  {
    GrayEncode(Redo(s, b - 1), b)
  }

  /** The transforms undo each other, in both orders, and stay inside the cube. */
  lemma MutualInverses(s: seq<nat>, b: nat)
    requires |s| > 0 && b > 0 && Bounded(s, b)
    ensures ToTranspose(ToAxes(s, b), b) == s
    ensures ToAxes(ToTranspose(s, b), b) == s
    ensures Bounded(ToAxes(s, b), b) && Bounded(ToTranspose(s, b), b)
  {
    hide GrayDecode, GrayEncode, Undo, Redo, Bounded;
    GrayDecodeBounded(s, b);
    UndoBounded(GrayDecode(s), b - 1, b);
    RedoUndoesUndo(GrayDecode(s), b - 1);
    GrayEncodeInverts(s, b);
    RedoBounded(s, b - 1, b);
    GrayEncodeBounded(Redo(s, b - 1), b);
    GrayDecodeInverts(Redo(s, b - 1), b);
    UndoUndoesRedo(s, b - 1);
  }

  // ---- The in-place procedures ---------------------------------------------

  /** One invert/exchange on the array, with the mask arithmetic of the source. */
  method StepInPlace(X: array<nat>, i: nat, Q: nat, ghost q: nat)
    requires i < X.Length && Q == Pow2(q)
    modifies X
    ensures X[..] == Step(old(X[..]), i, q)
  {
    var P := Q - 1;
    if And(X[i], Q) != 0 {
      X[0] := Xor(X[0], P);
    } else {
      var t := And(Xor(X[0], X[i]), P);
      X[0] := Xor(X[0], t);
      X[i] := Xor(X[i], t);
    }
  }

  /** The first half of TransposetoAxes. */
  method GrayDecodeInPlace(X: array<nat>)
    requires X.Length > 0
    modifies X
    ensures X[..] == GrayDecode(old(X[..]))
  {
    hide Xor, Shr;
    var n := X.Length;
    ghost var s := X[..];
    var t := Shr(X[n - 1], 1);
    var i := n - 1;
    while i != 0
      invariant 0 <= i < n
      invariant forall k | 0 <= k <= i :: X[k] == s[k]
      invariant forall k {:trigger X[k]} | i < k < n :: X[k] == Xor(s[k], s[k - 1])
    {
      X[i] := Xor(X[i], X[i - 1]);
      i := i - 1;
    }
    X[0] := Xor(X[0], t);
    assert X[..] == GrayDecode(s);
  }

  /** One level of TransposetoAxes: the axes from the last down. */
  method LevelInPlace(X: array<nat>, Q: nat, ghost q: nat)
    requires X.Length > 0 && Q == Pow2(q)
    modifies X
    ensures X[..] == LevelDown(old(X[..]), X.Length - 1, q)
  {
    hide Step, Pow2;
    ghost var u := X[..];
    var i := X.Length - 1;
    while i != 0
      invariant 0 <= i < X.Length
      invariant LevelDown(X[..], i, q) == LevelDown(u, X.Length - 1, q)
    {
      StepInPlace(X, i, Q, q);
      i := i - 1;
    }
    StepInPlace(X, 0, Q, q);
  }

  method TransposeToAxes(X: array<nat>, b: nat)
    requires X.Length > 0 && b > 0
    modifies X
    ensures X[..] == ToAxes(old(X[..]), b)
    ensures Bounded(old(X[..]), b) ==> ToTranspose(X[..], b) == old(X[..])
  {
    hide Step, GrayDecode, LevelDown, ToTranspose, Bounded;
    if Bounded(X[..], b) { MutualInverses(X[..], b); }
    ghost var g := GrayDecode(X[..]);
    GrayDecodeInPlace(X);

    var M := Shl(2, b - 1);
    var Q := 2;
    ghost var q := 1;
    while Q != M
      invariant 1 <= q <= b && Q == Pow2(q)
      invariant X[..] == Undo(g, q - 1)
      decreases b - q
    {
      LevelInPlace(X, Q, q);
      Q := Shl(Q, 1);
      q := q + 1;
    }
    if q < b { PowersDiffer(q, b); }
  }

  lemma {:induction false} PowersDiffer(q: nat, b: nat)
    requires q < b
    ensures Pow2(q) < Pow2(b)
  {
    if q + 1 < b { PowersDiffer(q, b - 1); }
  }

  /** The first half of AxestoTranspose. */
  method RedoInPlace(X: array<nat>, b: nat)
    requires X.Length > 0 && b > 0
    modifies X
    ensures X[..] == Redo(old(X[..]), b - 1)
  {
    hide Step;
    var n := X.Length;
    ghost var s := X[..];
    var Q := Shl(1, b - 1);
    ghost var q := b - 1;
    while Q > 1
      invariant 0 <= q < b && Q == Pow2(q)
      invariant Redo(X[..], q) == Redo(s, b - 1)
      decreases q
    {
      ghost var u := X[..];
      StepInPlace(X, 0, Q, q);
      var i := 1;
      while i < n
        invariant 1 <= i <= n
        invariant X[..] == LevelUp(u, i - 1, q)
      {
        StepInPlace(X, i, Q, q);
        i := i + 1;
      }
      assert Shr(Q, 1) == Pow2(q - 1);
      Q := Shr(Q, 1);
      q := q - 1;
    }
  }

  method AxesToTranspose(X: array<nat>, b: nat)
    requires X.Length > 0 && b > 0
    modifies X
    ensures X[..] == ToTranspose(old(X[..]), b)
    ensures Bounded(old(X[..]), b) ==> ToAxes(X[..], b) == old(X[..])
  {
    hide Redo, GrayEncode, ToAxes, Bounded;
    if Bounded(X[..], b) { MutualInverses(X[..], b); }
    RedoInPlace(X, b);
    GrayEncodeInPlace(X, b);
  }

  /** The prefix loop. */
  method PrefixInPlace(X: array<nat>)
    requires X.Length > 0
    modifies X
    ensures forall k | 0 <= k < X.Length :: X[k] == PrefixXor(old(X[..]), k)
  {
    hide Xor;
    ghost var s := X[..];
    var i := 1;
    while i < X.Length
      invariant 1 <= i <= X.Length
      invariant forall k | 0 <= k < i :: X[k] == PrefixXor(s, k)
      invariant forall k | i <= k < X.Length :: X[k] == s[k]
    {
      X[i] := Xor(X[i], X[i - 1]);
      i := i + 1;
    }
  }

  /** The loop of doubling shifts on the last word. */
  method FoldLast(X: array<nat>, b: nat)
    requires X.Length > 0
    modifies X
    ensures X[X.Length - 1] == FoldAll(old(X[X.Length - 1]), 1, b)
    ensures forall k | 0 <= k < X.Length - 1 :: X[k] == old(X[k])
  {
    hide Xor, Shr;
    var n, i := X.Length, 1;
    while i < b
      invariant i >= 1
      invariant FoldAll(X[n - 1], i, b) == FoldAll(old(X[n - 1]), 1, b)
      invariant forall k | 0 <= k < n - 1 :: X[k] == old(X[k])
      decreases b - i
    {
      X[n - 1] := Xor(X[n - 1], Shr(X[n - 1], i));
      assert Shl(i, 1) == 2 * i;
      i := Shl(i, 1);
    }
  }

  /** The closing loop: t goes into every word but the last. */
  method XorOthers(X: array<nat>, t: nat)
    requires X.Length > 0
    modifies X
    ensures X[X.Length - 1] == old(X[X.Length - 1])
    ensures forall k | 0 <= k < X.Length - 1 :: X[k] == Xor(old(X[k]), t)
  {
    hide Xor;
    var j := X.Length - 2;
    while j >= 0
      invariant -1 <= j <= X.Length - 2
      invariant X[X.Length - 1] == old(X[X.Length - 1])
      invariant forall k | 0 <= k <= j :: X[k] == old(X[k])
      invariant forall k | j < k < X.Length - 1 :: X[k] == Xor(old(X[k]), t)
    {
      X[j] := Xor(X[j], t);
      j := j - 1;
    }
  }

  /** The second half of AxestoTranspose. */
  method GrayEncodeInPlace(X: array<nat>, b: nat)
    requires X.Length > 0
    modifies X
    ensures X[..] == GrayEncode(old(X[..]), b)
  {
    hide Xor, FoldAll, PrefixXor;
    ghost var s := X[..];
    PrefixInPlace(X);
    var t := X[X.Length - 1];
    FoldLast(X, b);
    t := Xor(t, X[X.Length - 1]);
    XorOthers(X, t);
    assert X[..] == GrayEncode(s, b);
  }
}
