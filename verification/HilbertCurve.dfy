/**
 The curve traced by the Hilbert integer: interleaving the transposed words is a
 bijection between the cube [0, 2^b)^n and [0, 2^(n*b)), and consecutive
 integers are neighbouring points of the cube (contribs/README, "skilling.c").
 */
module HilbertCurve {
  import opened Bits
  import opened Hilbert

  // ---- Interleaving --------------------------------------------------------

  /** Axes i .. n-1 of one level, most significant axis first. */
  function Row(s: seq<nat>, l: nat, i: nat): nat
    requires i <= |s|
    decreases |s| - i
  {
    if i == |s| then 0
    else Shl(And(Shr(s[i], l), 1), |s| - 1 - i) + Row(s, l, i + 1)
  }

  /** The sum computed in `main`, for b levels of n axes. */
  function Interleave(s: seq<nat>, b: nat): nat {
    if b == 0 then 0 else Shl(Row(s, b - 1, 0), (b - 1) * |s|) + Interleave(s, b - 1)
  }

  /** Where bit l of axis i goes. */
  function Place(n: nat, l: nat, i: nat): nat
    requires i < n
  {
    l * n + (n - 1 - i)
  }

  /** Axis i read back from a Hilbert integer. */
  function Axis(h: nat, n: nat, i: nat, b: nat): nat
    requires i < n
  {
    if b == 0 then 0
    else Axis(h, n, i, b - 1) + if Bit(h, Place(n, b - 1, i)) then Pow2(b - 1) else 0
  }

  function Deinterleave(h: nat, n: nat, b: nat): (s: seq<nat>)
    ensures |s| == n
  {
    seq(n, i requires 0 <= i < n => Axis(h, n, i, b))
  }

  lemma {:induction false} BitAxis(h: nat, n: nat, i: nat, b: nat, l: nat)
    requires i < n
    ensures Axis(h, n, i, b) < Pow2(b)
    ensures Bit(Axis(h, n, i, b), l) == (l < b && Bit(h, Place(n, l, i)))
  {
    hide Bit, Pow2, Place, Axis;
    if b == 0 {
      AxisNone(h, n, i);
      BitZero(l);
    } else {
      AxisStep(h, n, i, b);
      var hi := if Bit(h, Place(n, b - 1, i)) then 1 else 0;
      BitAxis(h, n, i, b - 1, l);
      BitConcat(Axis(h, n, i, b - 1), hi, b - 1, l);
      if l >= b - 1 { BitOfOne(l - (b - 1)); }
    }
  }

  lemma AxisNone(h: nat, n: nat, i: nat)
    requires i < n
    ensures Axis(h, n, i, 0) == 0 && Pow2(0) == 1
  {
  }

  lemma AxisStep(h: nat, n: nat, i: nat, b: nat)
    requires i < n && b > 0
    ensures Axis(h, n, i, b) == Axis(h, n, i, b - 1) + Pow2(b - 1) * if Bit(h, Place(n, b - 1, i)) then 1 else 0
    ensures Pow2(b) == 2 * Pow2(b - 1)
  {
    hide Bit, Place;
  }

  lemma BitOfOne(k: nat)
    ensures Bit(1, k) == (k == 0) && !Bit(0, k)
  {
    BitZero(k);
    if k > 0 { BitZero(k - 1); }
  }

  lemma LowBit(x: nat, l: nat)
    ensures And(Shr(x, l), 1) == if Bit(x, l) then 1 else 0
  {
    var y := And(Shr(x, l), 1);
    var z := if Bit(x, l) then 1 else 0;
    forall p: nat ensures Bit(y, p) == Bit(z, p) {
      BitAnd(Shr(x, l), 1, p);
      BitShr(x, l, p);
      BitPow2(0, p);
      BitZero(p);
    }
    SameBits(y, z);
  }

  lemma {:induction false} BitRow(s: seq<nat>, l: nat, i: nat)
    requires i <= |s|
    ensures Row(s, l, i) < Pow2(|s| - i)
    ensures forall k {:trigger s[k]} | i <= k < |s| :: Bit(Row(s, l, i), |s| - 1 - k) == Bit(s[k], l)
    decreases |s| - i
  {
    if i < |s| {
      hide And, Shr;
      BitRow(s, l, i + 1);
      LowBit(s[i], l);
      var hi := And(Shr(s[i], l), 1);
      var lo := Row(s, l, i + 1);
      var m := |s| - 1 - i;
      assert Row(s, l, i) == lo + Pow2(m) * hi;
      forall k {:trigger s[k]} | i <= k < |s| ensures Bit(Row(s, l, i), |s| - 1 - k) == Bit(s[k], l) {
        BitConcat(lo, hi, m, |s| - 1 - k);
      }
    }
  }

  lemma PlaceBelow(n: nat, l: nat, i: nat, b: nat)
    requires i < n && l < b
    ensures Place(n, l, i) < b * n
  {
    assert (l + 1) * n <= b * n;
  }

  lemma {:induction false} BitInterleave(s: seq<nat>, b: nat, l: nat, i: nat)
    requires l < b && i < |s|
    ensures Interleave(s, b) < Pow2(b * |s|)
    ensures Bit(Interleave(s, b), Place(|s|, l, i)) == Bit(s[i], l)
  {
    hide Row, Pow2, Bit;
    var n := |s|;
    var hi, lo := Row(s, b - 1, 0), Interleave(s, b - 1);
    InterleaveBelow(s, b - 1);
    InterleaveBelow(s, b);
    BitRow(s, b - 1, 0);
    assert Interleave(s, b) == lo + Pow2((b - 1) * n) * hi;
    BitConcat(lo, hi, (b - 1) * n, Place(n, l, i));
    if l < b - 1 {
      PlaceBelow(n, l, i, b - 1);
      BitInterleave(s, b - 1, l, i);
    }
  }

  lemma ConcatBelow(lo: nat, hi: nat, m: nat, n: nat)
    requires lo < Pow2(m) && hi < Pow2(n)
    ensures Shl(hi, m) + lo < Pow2(m + n)
  {
    Pow2Add(m, n);
    hide Pow2;
    BelowProduct(lo, hi, Pow2(m), Pow2(n));
  }

  lemma BelowProduct(lo: nat, hi: nat, c: nat, e: nat)
    requires lo < c && hi < e
    ensures hi * c + lo < c * e
  {
    assert c * (hi + 1) <= c * e;
  }

  lemma {:induction false} InterleaveBelow(s: seq<nat>, b: nat)
    ensures Interleave(s, b) < Pow2(b * |s|)
  {
    if b > 0 {
      hide Pow2, Row;
      var m, hi := (b - 1) * |s|, Row(s, b - 1, 0);
      InterleaveBelow(s, b - 1);
      BitRow(s, b - 1, 0);
      ConcatBelow(Interleave(s, b - 1), hi, m, |s|);
      OneMoreLevel(b, |s|);
    }
  }

  lemma OneMoreLevel(b: nat, n: nat)
    requires b > 0
    ensures b * n == (b - 1) * n + n
  {
  }

  lemma DeinterleaveInverts(s: seq<nat>, b: nat)
    requires |s| > 0 && Bounded(s, b)
    ensures Deinterleave(Interleave(s, b), |s|, b) == s
  {
    var h := Interleave(s, b);
    forall i | 0 <= i < |s| ensures Axis(h, |s|, i, b) == s[i] {
      forall l: nat ensures Bit(Axis(h, |s|, i, b), l) == Bit(s[i], l) {
        BitAxis(h, |s|, i, b, l);
        if l < b { BitInterleave(s, b, l, i); } else { NoHighBit(s[i], b, l); }
      }
      SameBits(Axis(h, |s|, i, b), s[i]);
    }
  }

  lemma InterleaveInverts(h: nat, n: nat, b: nat)
    requires n > 0 && h < Pow2(b * n)
    ensures Interleave(Deinterleave(h, n, b), b) == h
  {
    var s := Deinterleave(h, n, b);
    InterleaveBelow(s, b);
    forall p: nat ensures Bit(Interleave(s, b), p) == Bit(h, p) {
      if p < b * n {
        var l, i := Level(p, n, b), n - 1 - p % n;
        BitInterleave(s, b, l, i);
        BitAxis(h, n, i, b, l);
      } else {
        NoHighBit(h, b * n, p);
        NoHighBit(Interleave(s, b), b * n, p);
      }
    }
    SameBits(Interleave(s, b), h);
  }

  /** The level a position belongs to. */
  ghost function Level(p: nat, n: nat, b: nat): (l: nat)
    requires n > 0 && p < b * n
    ensures l < b && p == l * n + p % n
  {
    var l := p / n;
    assert p == l * n + p % n;
    assert b <= l ==> b * n <= l * n;
    l
  }

  // ---- The curve -----------------------------------------------------------

  /** The point with Hilbert integer h. */
  function Point(h: nat, n: nat, b: nat): (s: seq<nat>)
    requires n > 0 && b > 0
    ensures |s| == n
  {
    ToAxes(Deinterleave(h, n, b), b)
  }

  /** The number `main` prints for a coordinate vector. */
  function HilbertInteger(s: seq<nat>, b: nat): nat
    requires |s| > 0 && b > 0
  {
    Interleave(ToTranspose(s, b), b)
  }

  lemma DeinterleaveBounded(h: nat, n: nat, b: nat)
    ensures Bounded(Deinterleave(h, n, b), b)
  {
    forall i | 0 <= i < n ensures Axis(h, n, i, b) < Pow2(b) { BitAxis(h, n, i, b, 0); }
  }

  /** One of the 2^(b*n) numbers of the cells of the cube. */
  ghost predicate IsCell(h: nat, n: nat, b: nat) { h < Pow2(b * n) }

  /** Coordinates and Hilbert integers are in bijection: cube onto [0, 2^(b*n)). */
  lemma CoordinatesToInteger(s: seq<nat>, b: nat)
    requires |s| > 0 && b > 0 && Bounded(s, b)
    ensures IsCell(HilbertInteger(s, b), |s|, b)
    ensures Point(HilbertInteger(s, b), |s|, b) == s
  {
    hide Interleave, Pow2, ToTranspose, ToAxes, Bounded, Deinterleave;
    MutualInverses(s, b);
    InterleaveBelow(ToTranspose(s, b), b);
    DeinterleaveInverts(ToTranspose(s, b), b);
  }

  lemma IntegerToCoordinates(h: nat, n: nat, b: nat)
    requires n > 0 && b > 0 && h < Pow2(b * n)
    ensures Bounded(Point(h, n, b), b)
    ensures HilbertInteger(Point(h, n, b), b) == h
  {
    DeinterleaveBounded(h, n, b);
    MutualInverses(Deinterleave(h, n, b), b);
    InterleaveInverts(h, n, b);
  }

  // ---- Gray words of consecutive integers ---------------------------------

  lemma PlaceNext(n: nat, l: nat, i: nat)
    requires i < n
    ensures Place(n, l, i) + 1 == if i == 0 then Place(n, l + 1, n - 1) else Place(n, l, i - 1)
  {
  }

  /** The Gray decoding across axes is h ^ (h >> 1) across the interleaved bits. */
  lemma GrayBit(h: nat, n: nat, b: nat, i: nat, l: nat)
    requires i < n && h < Pow2(b * n)
    ensures var g := GrayDecode(Deinterleave(h, n, b));
            Bit(g[i], l) == (l < b && Bit(h, Place(n, l, i)) != Bit(h, Place(n, l, i) + 1))
  {
    hide *;
    var s := Deinterleave(h, n, b);
    WordsOf(h, n, b, i);
    BitAxis(h, n, i, b, l);
    PlaceNext(n, l, i);
    if i == 0 {
      WordsOf(h, n, b, n - 1);
      BitXor(s[0], Shr(s[n - 1], 1), l);
      BitShr(s[n - 1], 1, l);
      BitAxis(h, n, n - 1, b, l + 1);
      if l == b - 1 { TopBit(h, n, b); }
    } else {
      WordsOf(h, n, b, i - 1);
      BitXor(s[i], s[i - 1], l);
      BitAxis(h, n, i - 1, b, l);
    }
  }

  lemma WordsOf(h: nat, n: nat, b: nat, i: nat)
    requires i < n
    ensures var s := Deinterleave(h, n, b);
            && s[i] == Axis(h, n, i, b)
            && GrayDecode(s)[i] == if i == 0 then Xor(s[0], Shr(s[n - 1], 1)) else Xor(s[i], s[i - 1])
  {
    hide Axis, Xor, Shr, Pow2, Bit, GrayDecode;
    GrayWord(Deinterleave(h, n, b), i);
  }

  lemma GrayWord(s: seq<nat>, i: nat)
    requires i < |s|
    ensures GrayDecode(s)[i] == if i == 0 then Xor(s[0], Shr(s[|s| - 1], 1)) else Xor(s[i], s[i - 1])
  {
    hide Xor, Shr;
  }

  lemma TopBit(h: nat, n: nat, b: nat)
    requires n > 0 && h < Pow2(b * n)
    ensures !Bit(h, Place(n, b, n - 1))
  {
    NoHighBit(h, b * n, Place(n, b, n - 1));
  }

  /**
   Two word vectors that differ in the single bit (axis a, level j), after which,
   in interleaved order, comes one set bit and then only clear ones.
   */
  ghost predicate Twins(s: seq<nat>, t: seq<nat>, a: nat, j: nat) {
    && |s| == |t| && a < |s|
    && (forall k, l: nat | 0 <= k < |s| :: (Bit(s[k], l) != Bit(t[k], l)) == (k == a && l == j))
    && TrailOne(s, a, j) && TrailOne(t, a, j)
  }

  ghost predicate TrailOne(s: seq<nat>, a: nat, j: nat) {
    && (forall k, l: nat | 0 <= k < |s| && l < j :: Bit(s[k], l) == (l == j - 1 && k == 0 && a == |s| - 1))
    && (forall k | a < k < |s| :: Bit(s[k], j) == (k == a + 1))
  }

  lemma PlaceOrder(n: nat, a: nat, j: nat, i: nat, l: nat)
    requires a < n && i < n
    ensures Place(n, l, i) < Place(n, j, a) <==> l < j || (l == j && i > a)
    ensures Place(n, l, i) == Place(n, j, a) <==> l == j && i == a
    ensures Place(n, l, i) + 1 == Place(n, j, a) <==> (l == j && i == a + 1) || (l + 1 == j && i == 0 && a == n - 1)
  {
    if l < j {
      Stride(n, l, j);
    } else if j < l {
      Stride(n, j, l);
    }
  }

  lemma Stride(n: nat, l: nat, j: nat)
    requires l < j
    ensures l * n + n <= j * n
    ensures l + 1 == j ==> l * n + n == j * n
    ensures l + 1 < j ==> l * n + 2 * n <= j * n
  {
    var d := j - l;
    assert j * n == l * n + d * n;
    if d > 1 { assert d * n == 2 * n + (d - 2) * n; }
  }

  lemma CarryFits(h: nat, m: nat)
    requires h + 1 < Pow2(m)
    ensures LowZero(h) < m
  {
    BitSuccessor(h, LowZero(h));
    if LowZero(h) >= m { NoHighBit(h + 1, m, LowZero(h)); }
  }

  lemma ConsecutiveAreTwins(h: nat, n: nat, b: nat) returns (a: nat, j: nat)
    requires n > 0 && h + 1 < Pow2(b * n)
    ensures j < b
    ensures Twins(GrayDecode(Deinterleave(h, n, b)), GrayDecode(Deinterleave(h + 1, n, b)), a, j)
  {
    hide Bit, GrayDecode, Deinterleave, LowZero, Pow2;
    var z := LowZero(h);
    assert z < b * n by { CarryFits(h, b * n); }
    j, a := Level(z, n, b), n - 1 - z % n;
    var s, t := GrayDecode(Deinterleave(h, n, b)), GrayDecode(Deinterleave(h + 1, n, b));
    forall k, l: nat | 0 <= k < n
      ensures (Bit(s[k], l) != Bit(t[k], l)) == (k == a && l == j)
      ensures l < j ==> Bit(s[k], l) == Bit(t[k], l) == (l == j - 1 && k == 0 && a == n - 1)
      ensures l == j && k > a ==> Bit(s[k], l) == Bit(t[k], l) == (k == a + 1)
    {
      TwinBit(h, n, b, a, j, k, l);
    }
  }

  lemma TwinBit(h: nat, n: nat, b: nat, a: nat, j: nat, k: nat, l: nat)
    requires a < n && k < n && j < b && h + 1 < Pow2(b * n)
    ensures LowZero(h) == Place(n, j, a) ==>
              var s, t := GrayDecode(Deinterleave(h, n, b)), GrayDecode(Deinterleave(h + 1, n, b));
              && (Bit(s[k], l) != Bit(t[k], l)) == (k == a && l == j)
              && (l < j ==> Bit(s[k], l) == Bit(t[k], l) == (l == j - 1 && k == 0 && a == n - 1))
              && (l == j && k > a ==> Bit(s[k], l) == Bit(t[k], l) == (k == a + 1))
  {
    hide Bit, GrayDecode, Deinterleave, Pow2, LowZero;
    var p := Place(n, l, k);
    PlaceOrder(n, a, j, k, l);
    GrayBit(h, n, b, k, l);
    GrayBit(h + 1, n, b, k, l);
    BitSuccessor(h, p);
    BitSuccessor(h, p + 1);
  }

  // ---- What one level does to low parts ------------------------------------

  /** Bits at and above q are the same. */
  ghost predicate SameAbove(s: seq<nat>, t: seq<nat>, q: nat) {
    |s| == |t| && forall k | 0 <= k < |s| :: Shr(s[k], q) == Shr(t[k], q)
  }

  lemma BitAbove(s: seq<nat>, t: seq<nat>, q: nat, k: nat, l: nat)
    requires SameAbove(s, t, q) && k < |s| && q <= l
    ensures Bit(s[k], l) == Bit(t[k], l)
  {
    BitShr(s[k], q, l - q);
    BitShr(t[k], q, l - q);
  }

  lemma {:induction false} LevelKeepsAbove(s: seq<nat>, i: nat, q: nat)
    requires i < |s|
    ensures SameAbove(LevelDown(s, i, q), s, q)
    decreases i
  {
    StepEffect(s, i, q);
    if i > 0 { LevelKeepsAbove(Step(s, i, q), i - 1, q); }
  }

  lemma {:induction false} UndoKeepsAbove(s: seq<nat>, q: nat)
    requires |s| > 0
    ensures SameAbove(Undo(s, q), s, q)
  {
    if q > 0 {
      UndoKeepsAbove(s, q - 1);
      var u := Undo(s, q - 1);
      LevelKeepsAbove(u, |s| - 1, q);
      forall k | 0 <= k < |s| ensures Shr(Undo(s, q)[k], q) == Shr(s[k], q) {
        ShrStep(u[k], q);
        ShrStep(s[k], q);
      }
    }
  }

  lemma {:induction false} ShrStep(x: nat, q: nat)
    requires q > 0
    ensures Shr(x, q) == Shr(x, q - 1) / 2
  {
    if q > 1 { ShrStep(x / 2, q - 1); }
  }

  /** Bit q differs on axis a only. */
  ghost predicate DifferAt(s: seq<nat>, t: seq<nat>, q: nat, a: nat) {
    |s| == |t| && forall k | 0 <= k < |s| :: (Bit(s[k], q) != Bit(t[k], q)) == (k == a)
  }

  lemma DifferAbove(s: seq<nat>, t: seq<nat>, w: seq<nat>, x: seq<nat>, q: nat, a: nat)
    requires DifferAt(s, t, q, a) && SameAbove(w, s, q) && SameAbove(x, t, q)
    ensures DifferAt(w, x, q, a)
  {
    hide Bit, Shr;
    forall k | 0 <= k < |s| ensures Bit(w[k], q) == Bit(s[k], q) && Bit(x[k], q) == Bit(t[k], q) {
      BitAbove(w, s, q, k, q);
      BitAbove(x, t, q, k, q);
    }
  }

  /** Of the axes a+1 .. i, exactly a+1 has bit q set. */
  ghost predicate Trail(s: seq<nat>, i: nat, q: nat, a: nat) {
    i < |s| && forall k | a < k <= i :: Bit(s[k], q) == (k == a + 1)
  }

  /** All low parts are zero, except that axis 0 holds c. */
  ghost predicate OnlyFirst(s: seq<nat>, q: nat, c: nat) {
    && |s| > 0 && Low(s[0], q) == c
    && forall k | 0 < k < |s| :: Low(s[k], q) == 0
  }

  /** With nothing below q and no bit set at q on axes 1..i, a level can only mirror axis 0. */
  lemma {:induction false} QuietLevel(s: seq<nat>, i: nat, q: nat)
    requires i < |s| && OnlyFirst(s, q, 0)
    requires forall k | 0 < k <= i :: !Bit(s[k], q)
    ensures OnlyFirst(LevelDown(s, i, q), q, if Bit(s[0], q) then Pow2(q) - 1 else 0)
    decreases i
  {
    var r := Step(s, i, q);
    StepEffect(s, i, q);
    if i > 0 {
      forall k | 0 <= k < |s| ensures Bit(r[k], q) == Bit(s[k], q) { BitAbove(r, s, q, k, q); }
      QuietLevel(r, i - 1, q);
    }
  }

  /** Levels below the differing bit: all zero, or (a last axis) the far end of axis 0. */
  lemma {:induction false} BelowTwinBit(s: seq<nat>, a: nat, j: nat, q: nat)
    requires a < |s| && TrailOne(s, a, j) && q < j
    ensures OnlyFirst(Undo(s, q), q + 1, if q == j - 1 && a == |s| - 1 then Pow2(j) - 1 else 0)
  {
    hide Bit, Shr, LevelDown;
    var r := Undo(s, q);
    UndoKeepsAbove(s, q);
    if q > 0 {
      var u := Undo(s, q - 1);
      BelowTwinBit(s, a, j, q - 1);
      UndoKeepsAbove(s, q - 1);
      forall k | 0 <= k < |s| ensures Bit(u[k], q) == Bit(s[k], q) { BitAbove(u, s, q - 1, k, q); }
      QuietLevel(u, |s| - 1, q);
    }
    forall k | 0 <= k < |s|
      ensures Low(r[k], q + 1) == Low(r[k], q) + if q == j - 1 && a == |s| - 1 && k == 0 then Pow2(q) else 0
    {
      LowNext(r[k], q);
      BitAbove(r, s, q, k, q);
    }
  }

  /** Axes above a of the level that holds the differing bit: they leave axis 0 at its far end. */
  lemma {:induction false} ReachDifference(s: seq<nat>, i: nat, q: nat, a: nat) returns (w: seq<nat>)
    requires a <= i < |s|
    requires OnlyFirst(s, q, if i == a then Pow2(q) - 1 else 0)
    requires Trail(s, i, q, a)
    ensures |w| == |s| && SameAbove(w, s, q) && OnlyFirst(w, q, Pow2(q) - 1)
    ensures LevelDown(s, i, q) == LevelDown(w, a, q)
    decreases i
  {
    if i == a {
      w := s;
    } else {
      var r := Step(s, i, q);
      StepEffect(s, i, q);
      forall k | 0 <= k < |s| ensures Bit(r[k], q) == Bit(s[k], q) { BitAbove(r, s, q, k, q); }
      w := ReachDifference(r, i - 1, q, a);
    }
  }

  /** Low parts agree off axis a. */
  ghost predicate AgreeOff(s: seq<nat>, t: seq<nat>, q: nat, a: nat) {
    |s| == |t| && forall k | 0 <= k < |s| && k != a :: Low(s[k], q) == Low(t[k], q)
  }

  lemma {:induction false} PassBelow(s: seq<nat>, t: seq<nat>, i: nat, q: nat, a: nat)
    requires i < a < |s| && AgreeOff(s, t, q, a)
    requires forall k | 0 <= k <= i :: Bit(s[k], q) == Bit(t[k], q)
    ensures var r, r' := LevelDown(s, i, q), LevelDown(t, i, q);
            AgreeOff(r, r', q, a) && r[a] == s[a] && r'[a] == t[a]
    decreases i
  {
    hide Bit, Low, Pow2, Step, Shr;
    var u, v := Step(s, i, q), Step(t, i, q);
    StepAgrees(s, t, i, q, a);
    if i > 0 {
      StepSameBits(s, t, i, q);
      PassBelow(u, v, i - 1, q, a);
    }
  }

  /** A step on an axis below a, alike on both sides, keeps them agreeing off axis a. */
  lemma StepAgrees(s: seq<nat>, t: seq<nat>, i: nat, q: nat, a: nat)
    requires i < a < |s| && AgreeOff(s, t, q, a) && Bit(s[i], q) == Bit(t[i], q)
    ensures var u, v := Step(s, i, q), Step(t, i, q);
            AgreeOff(u, v, q, a) && u[a] == s[a] && v[a] == t[a]
  {
    hide Bit, Low, Pow2, Step, Shr;
    StepEffect(s, i, q);
    StepEffect(t, i, q);
  }

  lemma StepSameBits(s: seq<nat>, t: seq<nat>, i: nat, q: nat)
    requires i < |s| == |t| && forall k | 0 <= k <= i :: Bit(s[k], q) == Bit(t[k], q)
    ensures forall k | 0 <= k <= i :: Bit(Step(s, i, q)[k], q) == Bit(Step(t, i, q)[k], q)
  {
    hide Bit, Low, Pow2, Step, Shr;
    var u, v := Step(s, i, q), Step(t, i, q);
    StepEffect(s, i, q);
    StepEffect(t, i, q);
    forall k | 0 <= k <= i ensures Bit(u[k], q) == Bit(v[k], q) {
      BitAbove(u, s, q, k, q);
      BitAbove(v, t, q, k, q);
    }
  }

  /** Coordinates q bits deep that differ by one on axis a and nowhere else. */
  ghost predicate NextTo(s: seq<nat>, t: seq<nat>, q: nat, a: nat) {
    && AgreeOff(s, t, q, a) && a < |s|
    && (Low(s[a], q) == Low(t[a], q) + 1 || Low(t[a], q) == Low(s[a], q) + 1)
  }

  /** Lows that agree off axis a, with the far end against a clear bit and zero against a set one. */
  ghost predicate Facing(s: seq<nat>, t: seq<nat>, q: nat, a: nat) {
    && AgreeOff(s, t, q, a) && a < |s|
    && DifferAt(s, t, q, a)
    && Low(s[a], q) == (if Bit(s[a], q) then 0 else Pow2(q) - 1)
    && Low(t[a], q) == (if Bit(t[a], q) then 0 else Pow2(q) - 1)
  }

  lemma FacingIsNextTo(s: seq<nat>, t: seq<nat>, q: nat, a: nat)
    requires Facing(s, t, q, a)
    ensures NextTo(s, t, q + 1, a)
  {
    hide Bit, Low, Pow2;
    forall k | 0 <= k < |s|
      ensures Low(s[k], q + 1) == Low(s[k], q) + if Bit(s[k], q) then Pow2(q) else 0
      ensures Low(t[k], q + 1) == Low(t[k], q) + if Bit(t[k], q) then Pow2(q) else 0
    {
      LowNext(s[k], q);
      LowNext(t[k], q);
    }
  }

  lemma MeetDifference(w: seq<nat>, x: seq<nat>, q: nat, a: nat)
    requires |w| == |x| && a < |w|
    requires OnlyFirst(w, q, Pow2(q) - 1) && OnlyFirst(x, q, Pow2(q) - 1)
    requires DifferAt(w, x, q, a)
    ensures Facing(Step(w, a, q), Step(x, a, q), q, a)
  {
    hide Bit, Low, Pow2, Step, Shr;
    var u, v := Step(w, a, q), Step(x, a, q);
    StepEffect(w, a, q);
    StepEffect(x, a, q);
    DifferAbove(w, x, u, v, q, a);
    BitAbove(u, w, q, a, q);
    BitAbove(v, x, q, a, q);
  }

  lemma LeaveDifference(u: seq<nat>, v: seq<nat>, q: nat, a: nat)
    requires Facing(u, v, q, a) && a > 0
    ensures Facing(LevelDown(u, a - 1, q), LevelDown(v, a - 1, q), q, a)
  {
    hide Bit, Low, Pow2, LevelDown, Shr;
    var r, r' := LevelDown(u, a - 1, q), LevelDown(v, a - 1, q);
    PassBelow(u, v, a - 1, q, a);
    LevelKeepsAbove(u, a - 1, q);
    LevelKeepsAbove(v, a - 1, q);
    DifferAbove(u, v, r, r', q, a);
    BitAbove(r, u, q, a, q);
    BitAbove(r', v, q, a, q);
  }

  lemma LevelDownStep(s: seq<nat>, i: nat, q: nat)
    requires i < |s|
    ensures LevelDown(s, i, q) == if i == 0 then Step(s, i, q) else LevelDown(Step(s, i, q), i - 1, q)
  {
  }

  /** The level that holds the differing bit makes the two points neighbours. */
  lemma DifferenceLevel(s: seq<nat>, t: seq<nat>, q: nat, a: nat)
    requires |s| == |t| && a < |s|
    requires OnlyFirst(s, q, if a == |s| - 1 then Pow2(q) - 1 else 0) && Trail(s, |s| - 1, q, a)
    requires OnlyFirst(t, q, if a == |t| - 1 then Pow2(q) - 1 else 0) && Trail(t, |t| - 1, q, a)
    requires DifferAt(s, t, q, a)
    ensures NextTo(LevelDown(s, |s| - 1, q), LevelDown(t, |s| - 1, q), q + 1, a)
  {
    hide *;
    var w := ReachDifference(s, |s| - 1, q, a);
    var x := ReachDifference(t, |t| - 1, q, a);
    DifferAbove(s, t, w, x, q, a);
    MeetDifference(w, x, q, a);
    if a > 0 { LeaveDifference(Step(w, a, q), Step(x, a, q), q, a); }
    LevelDownStep(w, a, q);
    LevelDownStep(x, a, q);
    FacingIsNextTo(LevelDown(w, a, q), LevelDown(x, a, q), q, a);
  }

  /** Mirroring and swapping axes keep neighbours neighbours. */
  lemma {:induction false} LevelKeepsNextTo(s: seq<nat>, t: seq<nat>, i: nat, q: nat, a: nat) returns (a': nat)
    requires i < |s| && NextTo(s, t, q, a)
    requires forall k | 0 <= k <= i :: Bit(s[k], q) == Bit(t[k], q)
    ensures NextTo(LevelDown(s, i, q), LevelDown(t, i, q), q, a')
    decreases i
  {
    hide Bit, Low, Pow2, Step, Shr, NextTo;
    NextToLengths(s, t, q, a);
    a' := StepKeepsNextTo(s, t, i, q, a);
    if i > 0 {
      StepSameBits(s, t, i, q);
      a' := LevelKeepsNextTo(Step(s, i, q), Step(t, i, q), i - 1, q, a');
    }
  }

  lemma NextToLengths(s: seq<nat>, t: seq<nat>, q: nat, a: nat)
    requires NextTo(s, t, q, a)
    ensures |s| == |t|
  {
  }

  lemma StepKeepsNextTo(s: seq<nat>, t: seq<nat>, i: nat, q: nat, a: nat) returns (a': nat)
    requires i < |s| == |t| && NextTo(s, t, q, a) && Bit(s[i], q) == Bit(t[i], q)
    ensures NextTo(Step(s, i, q), Step(t, i, q), q, a')
  {
    hide Bit, Low, Pow2, Step, Shr;
    StepEffect(s, i, q);
    StepEffect(t, i, q);
    a' := if Bit(s[i], q) then a else if a == 0 then i else if a == i then 0 else a;
  }

  // ---- Locality ------------------------------------------------------------

  /** Twins at the lowest bit differ by one there. */
  lemma TwinsAtZero(s: seq<nat>, t: seq<nat>, a: nat)
    requires Twins(s, t, a, 0)
    ensures NextTo(s, t, 1, a)
  {
    hide Bit, Low, Shr;
    forall k | 0 <= k < |s|
      ensures Low(s[k], 1) == (if Bit(s[k], 0) then 1 else 0) && Low(t[k], 1) == if Bit(t[k], 0) then 1 else 0
    {
      LowOne(s[k]);
      LowOne(t[k]);
    }
  }

  lemma LowOne(x: nat)
    ensures Low(x, 1) == if Bit(x, 0) then 1 else 0
  {
    LowNext(x, 0);
  }

  /** Neighbours q bits deep whose bits at q agree are neighbours one bit deeper. */
  lemma NextToDeeper(s: seq<nat>, t: seq<nat>, q: nat, a: nat)
    requires NextTo(s, t, q, a) && forall k | 0 <= k < |s| :: Bit(s[k], q) == Bit(t[k], q)
    ensures NextTo(s, t, q + 1, a)
  {
    hide Bit, Low, Pow2;
    forall k | 0 <= k < |s| ensures Low(s[k], q + 1) - Low(t[k], q + 1) == Low(s[k], q) - Low(t[k], q) {
      LowNext(s[k], q);
      LowNext(t[k], q);
    }
  }

  lemma UndoneBit(s: seq<nat>, q: nat, k: nat)
    requires k < |s| && q > 0
    ensures Bit(Undo(s, q - 1)[k], q) == Bit(s[k], q)
  {
    hide Bit, Undo, Shr;
    UndoKeepsAbove(s, q - 1);
    BitAbove(Undo(s, q - 1), s, q - 1, k, q);
  }

  lemma LevelBit(s: seq<nat>, q: nat, k: nat)
    requires k < |s|
    ensures Bit(LevelDown(s, |s| - 1, q)[k], q) == Bit(s[k], q)
  {
    hide Bit, LevelDown, Shr;
    LevelKeepsAbove(s, |s| - 1, q);
    BitAbove(LevelDown(s, |s| - 1, q), s, q, k, q);
  }

  lemma {:induction false} UndoneTwinsNextTo(s: seq<nat>, t: seq<nat>, a: nat, j: nat, q: nat) returns (a': nat)
    requires Twins(s, t, a, j) && j <= q
    ensures NextTo(Undo(s, q), Undo(t, q), q + 1, a')
    decreases q
  {
    hide Bit, LevelDown, Shr, Low, Pow2, NextTo;
    a' := a;
    if q == 0 {
      TwinsAtZero(s, t, a);
    } else {
      var u, v := Undo(s, q - 1), Undo(t, q - 1);
      forall k | 0 <= k < |s| ensures Bit(u[k], q) == Bit(s[k], q) && Bit(v[k], q) == Bit(t[k], q) {
        UndoneBit(s, q, k);
        UndoneBit(t, q, k);
      }
      if j == q {
        BelowTwinBit(s, a, j, q - 1);
        BelowTwinBit(t, a, j, q - 1);
        DifferenceLevel(u, v, q, a);
      } else {
        a' := UndoneTwinsNextTo(s, t, a, j, q - 1);
        a' := LevelKeepsNextTo(u, v, |s| - 1, q, a');
        var r, r' := Undo(s, q), Undo(t, q);
        forall k | 0 <= k < |s| ensures Bit(r[k], q) == Bit(r'[k], q) {
          LevelBit(u, q, k);
          LevelBit(v, q, k);
        }
        NextToDeeper(r, r', q, a');
      }
    }
  }

  /** Two points that differ on exactly one axis, by exactly one. */
  ghost predicate Neighbours(p: seq<nat>, r: seq<nat>) {
    && |p| == |r|
    && exists a | 0 <= a < |p| ::
         && (p[a] == r[a] + 1 || r[a] == p[a] + 1)
         && forall k | 0 <= k < |p| && k != a :: p[k] == r[k]
  }

  /** Consecutive Hilbert integers are neighbouring points, for every n and b. */
  lemma Locality(h: nat, n: nat, b: nat)
    requires n > 0 && b > 0 && h + 1 < Pow2(b * n)
    ensures Neighbours(Point(h, n, b), Point(h + 1, n, b))
  {
    hide Bit, Low, Pow2, GrayDecode, Deinterleave, Undo, Twins;
    var a, j := ConsecutiveAreTwins(h, n, b);
    var s, t := GrayDecode(Deinterleave(h, n, b)), GrayDecode(Deinterleave(h + 1, n, b));
    a := UndoneTwinsNextTo(s, t, a, j, b - 1);
    var p, r := Point(h, n, b), Point(h + 1, n, b);
    IntegerToCoordinates(h, n, b);
    IntegerToCoordinates(h + 1, n, b);
    forall k | 0 <= k < n ensures Low(p[k], b) == p[k] && Low(r[k], b) == r[k] {
      LowSmall(p[k], b);
      LowSmall(r[k], b);
    }
  }

  // ---- Distance ------------------------------------------------------------

  ghost function Gap(x: nat, y: nat): nat {
    if x < y then y - x else x - y
  }

  /** Number of unit moves between two points. */
  ghost function Manhattan(p: seq<nat>, r: seq<nat>): nat
    requires |p| == |r|
  {
    if |p| == 0 then 0 else Gap(p[0], r[0]) + Manhattan(p[1..], r[1..])
  }

  lemma {:induction false} Triangle(p: seq<nat>, r: seq<nat>, s: seq<nat>)
    requires |p| == |r| == |s|
    ensures Manhattan(p, s) <= Manhattan(p, r) + Manhattan(r, s)
  {
    if |p| > 0 { Triangle(p[1..], r[1..], s[1..]); }
  }

  lemma {:induction false} ManhattanSelf(p: seq<nat>)
    ensures Manhattan(p, p) == 0
  {
    if |p| > 0 { ManhattanSelf(p[1..]); }
  }

  lemma {:induction false} NeighbourDistance(p: seq<nat>, r: seq<nat>)
    requires Neighbours(p, r)
    ensures Manhattan(p, r) == 1
  {
    var a :| 0 <= a < |p| && (p[a] == r[a] + 1 || r[a] == p[a] + 1)
             && forall k | 0 <= k < |p| && k != a :: p[k] == r[k];
    if a == 0 {
      assert p[1..] == r[1..];
      ManhattanSelf(p[1..]);
    } else {
      assert p[1..][a - 1] == p[a] && r[1..][a - 1] == r[a];
      NeighbourDistance(p[1..], r[1..]);
    }
  }

  /** Nodes close in Hilbert number are close in space: d steps along the curve never leave a ball of radius d. */
  lemma {:induction false} CloseInNumberCloseInSpace(h: nat, d: nat, n: nat, b: nat)
    requires n > 0 && b > 0 && h + d < Pow2(b * n)
    ensures Manhattan(Point(h, n, b), Point(h + d, n, b)) <= d
    decreases d
  {
    hide Pow2, Point, Manhattan, Neighbours;
    if d == 0 {
      ManhattanSelf(Point(h, n, b));
    } else {
      CloseInNumberCloseInSpace(h, d - 1, n, b);
      Locality(h + d - 1, n, b);
      NeighbourDistance(Point(h + d - 1, n, b), Point(h + d, n, b));
      Triangle(Point(h, n, b), Point(h + d - 1, n, b), Point(h + d, n, b));
    }
  }
}
