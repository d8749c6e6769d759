/**
 The curve of contribs/skilling.c as a shape.  A curve of order b is 2^n curves
 of order b-1, one in each half-size cube, the cubes taken in Gray
 order and each copy mirrored or with axes swapped so that the ends meet.
 */
module HilbertShape {
  import opened Bits
  import opened Hilbert
  import opened HilbertCurve

  // ---- The shape -----------------------------------------------------------

  /** Which half of axis k the w-th cube lies in, for every k. */
  function Halves(w: nat, n: nat): (g: seq<bool>)
    ensures |g| == n
  {
    seq(n, k requires 0 <= k < n => Bit(w, n - 1 - k) != Bit(w, n - k))
  }

  ghost predicate Inside(p: seq<nat>, m: nat) { forall k | 0 <= k < |p| :: p[k] < m }

  /** The point of a cube of side m seen in a mirror across axis 0. */
  function Mirrored(p: seq<nat>, m: nat): (r: seq<nat>)
    requires |p| > 0 && p[0] < m
    ensures |r| == |p|
  {
    p[0 := m - 1 - p[0]]
  }

  /** p itself, or its mirror image when w is odd. */
  function Faced(p: seq<nat>, w: nat, m: nat): (r: seq<nat>)
    requires |p| > 0 && Inside(p, m)
    ensures |r| == |p| && Inside(r, m)
  {
    if w % 2 == 1 then Mirrored(p, m) else p
  }

  /** Axes i, .., 0 in turn: an upper half mirrors axis 0, a lower half swaps it with that axis. */
  function Turned(p: seq<nat>, g: seq<bool>, i: nat, m: nat): (r: seq<nat>)
    requires i < |p| == |g| && Inside(p, m)
    ensures |r| == |p| && Inside(r, m)
    decreases i
  {
    var u := if g[i] then Mirrored(p, m) else p[0 := p[i]][i := p[0]];
    if i == 0 then u else Turned(u, g, i - 1, m)
  }

  /** A point of a half-size cube of side m, put into the half g[k] of every axis k. */
  function Put(p: seq<nat>, g: seq<bool>, m: nat): (r: seq<nat>)
    requires |p| == |g| && Inside(p, m)
    ensures |r| == |p| && Inside(r, 2 * m)
  {
    seq(|p|, k requires 0 <= k < |p| => p[k] + if g[k] then m else 0)
  }

  /** The number of cells of a cube of side 2^b. */
  function Cells(n: nat, b: nat): (c: nat)
    ensures c >= 1
  {
    Pow2(b * n)
  }

  /** Which of the 2^n cubes the h-th cell is in, and its number there. */
  function Digit(h: nat, n: nat, b: nat): nat { Shr(h, b * n) }

  function Rest(h: nat, n: nat, b: nat): (r: nat)
    ensures r < Cells(n, b)
  {
    Low(h, b * n)
  }

  lemma DigitAndRest(h: nat, n: nat, b: nat)
    ensures h == Rest(h, n, b) + Cells(n, b) * Digit(h, n, b)
  {
    SplitAt(h, b * n);
  }

  /** The h-th point of the curve of order b. */
  function Curve(h: nat, n: nat, b: nat): (r: seq<nat>)
    requires n > 0
    ensures |r| == n && Inside(r, Pow2(b))
    decreases b
  {
    if b == 0 then seq(n, k requires 0 <= k < n => 0)
    else
      var w, p, m := Digit(h, n, b - 1), Curve(Rest(h, n, b - 1), n, b - 1), Pow2(b - 1);
      Put(Turned(Faced(p, w, m), Halves(w, n), n - 1, m), Halves(w, n), m)
  }

  // ---- The levels of the transform ----------------------------------------

  function BitsAt(s: seq<nat>, q: nat): (g: seq<bool>)
    ensures |g| == |s|
  {
    seq(|s|, k requires 0 <= k < |s| => Bit(s[k], q))
  }

  function LowParts(s: seq<nat>, q: nat): (p: seq<nat>)
    ensures |p| == |s| && Inside(p, Pow2(q))
  {
    seq(|s|, k requires 0 <= k < |s| => Low(s[k], q))
  }

  /** Axes i, .., 0 of a level turn the low parts. */
  lemma {:induction false} LevelTurns(s: seq<nat>, i: nat, q: nat)
    requires i < |s|
    ensures LowParts(LevelDown(s, i, q), q) == Turned(LowParts(s, q), BitsAt(s, q), i, Pow2(q))
    decreases i
  {
    hide Low, Bit, Shr, Step;
    var r, p, g := Step(s, i, q), LowParts(s, q), BitsAt(s, q);
    var u := if g[i] then Mirrored(p, Pow2(q)) else p[0 := p[i]][i := p[0]];
    StepEffect(s, i, q);
    assert LowParts(r, q) == u;
    if i > 0 {
      forall k | 0 <= k < |s| ensures Bit(r[k], q) == Bit(s[k], q) { BitAbove(r, s, q, k, q); }
      assert BitsAt(r, q) == g;
      LevelTurns(r, i - 1, q);
    }
  }

  /** The q low levels of Gray words s, as a point of the cube of side 2^q. */
  function Deep(s: seq<nat>, q: nat): (r: seq<nat>)
    requires |s| > 0
    ensures |r| == |s| && Inside(r, Pow2(q))
  {
    if q == 0 then seq(|s|, k requires 0 <= k < |s| => 0)
    else Put(Turned(Deep(s, q - 1), BitsAt(s, q - 1), |s| - 1, Pow2(q - 1)), BitsAt(s, q - 1), Pow2(q - 1))
  }

  /** A cube of side one has one point. */
  lemma OnePoint(p: seq<nat>, r: seq<nat>, m: nat)
    requires |p| == |r| && m == 1 && Inside(p, m) && Inside(r, m)
    ensures p == r
  {
    assert forall k | 0 <= k < |p| :: p[k] < 1 && r[k] < 1;
  }

  lemma PutLow(r: seq<nat>, q: nat)
    ensures LowParts(r, q + 1) == Put(LowParts(r, q), BitsAt(r, q), Pow2(q))
  {
    hide Low, Bit, Pow2;
    forall k | 0 <= k < |r| ensures Low(r[k], q + 1) == Low(r[k], q) + if Bit(r[k], q) then Pow2(q) else 0 {
      LowNext(r[k], q);
    }
  }

  lemma {:induction false} UndoIsDeep(s: seq<nat>, q: nat)
    requires |s| > 0
    ensures LowParts(Undo(s, q), q + 1) == Deep(s, q + 1)
  {
    hide Low, Bit, Shr, LevelDown, Pow2, Turned, Put;
    var r := Undo(s, q);
    PutLow(r, q);
    if q == 0 {
      DeepUnit(s, q);
    } else {
      var u := Undo(s, q - 1);
      UndoIsDeep(s, q - 1);
      forall k | 0 <= k < |s| ensures Bit(u[k], q) == Bit(s[k], q) && Bit(r[k], q) == Bit(s[k], q) {
        UndoneBit(s, q, k);
        LevelBit(u, q, k);
      }
      assert BitsAt(u, q) == BitsAt(s, q) == BitsAt(r, q);
      LevelTurns(u, |s| - 1, q);
    }
  }

  lemma DeepUnit(s: seq<nat>, q: nat)
    requires |s| > 0 && q == 0
    ensures Deep(s, q + 1) == Put(LowParts(s, q), BitsAt(s, q), Pow2(q))
  {
    assert Pow2(q) == 1;
    hide *;
    DeepStep(s, q);
    OnePoint(Turned(Deep(s, q), BitsAt(s, q), |s| - 1, Pow2(q)), LowParts(s, q), Pow2(q));
  }

  lemma DeepStep(s: seq<nat>, q: nat)
    requires |s| > 0
    ensures Deep(s, q + 1) == Put(Turned(Deep(s, q), BitsAt(s, q), |s| - 1, Pow2(q)), BitsAt(s, q), Pow2(q))
  {
    hide Turned, Put;
  }

  // ---- The levels of the shape ---------------------------------------------

  /** Turning looks at the halves of axis 0 last. */
  lemma {:induction false} FlipFirst(p: seq<nat>, g: seq<bool>, i: nat, m: nat)
    requires i < |p| == |g| && Inside(p, m)
    ensures Turned(p, g[0 := !g[0]], i, m) == Mirrored(Turned(p, g, i, m), m)
    decreases i
  {
    var u := if g[i] then Mirrored(p, m) else p[0 := p[i]][i := p[0]];
    if i > 0 {
      FlipFirst(u, g, i - 1, m);
    }
  }

  lemma DeepFlip(s: seq<nat>, t: seq<nat>, q: nat)
    requires |s| == |t| > 0
    requires forall k, l: nat | 0 <= k < |s| && l <= q :: Bit(s[k], l) == (Bit(t[k], l) != (k == 0 && l == q))
    ensures Deep(s, q + 1) == Mirrored(Deep(t, q + 1), Pow2(q + 1))
  {
    hide Bit, Turned;
    var g := BitsAt(t, q);
    DeepSame(s, t, q);
    assert BitsAt(s, q) == g[0 := !g[0]];
    FlipFirst(Deep(t, q), g, |t| - 1, Pow2(q));
  }

  lemma {:induction false} DeepSame(s: seq<nat>, t: seq<nat>, q: nat)
    requires |s| == |t| > 0
    requires forall k, l: nat | 0 <= k < |s| && l < q :: Bit(s[k], l) == Bit(t[k], l)
    ensures Deep(s, q) == Deep(t, q)
  {
    if q > 0 {
      hide Bit, Turned, Put;
      DeepSame(s, t, q - 1);
      assert BitsAt(s, q - 1) == BitsAt(t, q - 1);
    }
  }

  /** The Gray bits of h below its first digit w are those of the rest, but for the first when w is odd. */
  lemma GrayBelow(h: nat, n: nat, b: nat, k: nat, l: nat)
    requires k < n && l < b && h < Cells(n, b + 1)
    ensures var s, t := GrayDecode(Deinterleave(h, n, b + 1)), GrayDecode(Deinterleave(Rest(h, n, b), n, b));
            Bit(s[k], l) == (Bit(t[k], l) != (Digit(h, n, b) % 2 == 1 && k == 0 && l == b - 1))
  {
    hide *;
    var p := Place(n, l, k);
    RestIsCell(h, n, b);
    GrayBit(h, n, b + 1, k, l);
    GrayBit(Rest(h, n, b), n, b, k, l);
    DigitBit(h, n, b, p);
    DigitBit(h, n, b, p + 1);
    LastPlace(n, b, k, l);
    OddBit(Digit(h, n, b));
  }

  lemma RestIsCell(h: nat, n: nat, b: nat)
    ensures Rest(h, n, b) < Pow2(b * n) && Cells(n, b + 1) == Pow2((b + 1) * n)
  {
  }

  lemma OddBit(w: nat)
    ensures Bit(w, 0) == (w % 2 == 1)
  {
  }

  lemma LastPlace(n: nat, b: nat, k: nat, l: nat)
    requires k < n && l < b
    ensures Place(n, l, k) < b * n && (Place(n, l, k) + 1 < b * n <==> !(k == 0 && l == b - 1))
    ensures k == 0 && l == b - 1 ==> Place(n, l, k) + 1 == b * n
  {
    PlaceBelow(n, l, k, b);
    PlaceOrder(n, n - 1, b, k, l);
  }

  /** Bits of the first digit of h and of the rest. */
  lemma DigitBit(h: nat, n: nat, b: nat, p: nat)
    ensures Bit(h, p) == if p < b * n then Bit(Rest(h, n, b), p) else Bit(Digit(h, n, b), p - b * n)
    ensures p >= b * n ==> !Bit(Rest(h, n, b), p)
  {
    hide Bit, Pow2, Digit, Rest;
    DigitAndRest(h, n, b);
    BitConcat(Rest(h, n, b), Digit(h, n, b), b * n, p);
    if p >= b * n { NoHighBit(Rest(h, n, b), b * n, p); }
  }

  lemma GrayTop(h: nat, n: nat, b: nat)
    requires n > 0 && h < Cells(n, b + 1)
    ensures BitsAt(GrayDecode(Deinterleave(h, n, b + 1)), b) == Halves(Digit(h, n, b), n)
  {
    hide Bit, Pow2, GrayDecode, Deinterleave, Cells;
    var s, w := GrayDecode(Deinterleave(h, n, b + 1)), Digit(h, n, b);
    forall k | 0 <= k < n ensures Bit(s[k], b) == (Bit(w, n - 1 - k) != Bit(w, n - k)) {
      RestIsCell(h, n, b);
      GrayBit(h, n, b + 1, k, b);
      DigitBit(h, n, b, Place(n, b, k));
      DigitBit(h, n, b, Place(n, b, k) + 1);
    }
  }

  /** Below its first digit, h is where the rest of h is in its own smaller cube. */
  lemma RestPoint(h: nat, n: nat, b: nat)
    requires n > 0 && h < Cells(n, b + 1)
    ensures Deep(GrayDecode(Deinterleave(h, n, b + 1)), b)
            == Faced(Deep(GrayDecode(Deinterleave(Rest(h, n, b), n, b)), b), Digit(h, n, b), Pow2(b))
  {
    hide Bit, Cells, GrayDecode, Deinterleave, Turned, Put, Digit, Rest;
    var s, t := GrayDecode(Deinterleave(h, n, b + 1)), GrayDecode(Deinterleave(Rest(h, n, b), n, b));
    if b > 0 {
      forall k, l: nat | 0 <= k < n && l < b
        ensures Bit(s[k], l) == (Bit(t[k], l) != (Digit(h, n, b) % 2 == 1 && k == 0 && l == b - 1))
      {
        GrayBelow(h, n, b, k, l);
      }
      if Digit(h, n, b) % 2 == 1 {
        DeepFlip(s, t, b - 1);
      } else {
        DeepSame(s, t, b);
      }
    }
  }

  lemma DeeperIsCurve(h: nat, n: nat, b: nat)
    requires n > 0 && h < Cells(n, b + 1)
    requires Deep(GrayDecode(Deinterleave(Rest(h, n, b), n, b)), b) == Curve(Rest(h, n, b), n, b)
    ensures Deep(GrayDecode(Deinterleave(h, n, b + 1)), b + 1) == Curve(h, n, b + 1)
  {
    hide *;
    RestPoint(h, n, b);
    GrayTop(h, n, b);
    DeepStep(GrayDecode(Deinterleave(h, n, b + 1)), b);
    CurveStep(h, n, b, Digit(h, n, b), Curve(Rest(h, n, b), n, b));
  }

  /** The Gray words of h give its point of the curve. */
  lemma {:induction false} DeepIsCurve(h: nat, n: nat, b: nat)
    requires n > 0 && h < Cells(n, b)
    ensures Deep(GrayDecode(Deinterleave(h, n, b)), b) == Curve(h, n, b)
    decreases b
  {
    hide *;
    if b > 0 {
      DeepIsCurve(Rest(h, n, b - 1), n, b - 1);
      DeeperIsCurve(h, n, b - 1);
    } else {
      NoLevels(h, n);
    }
  }

  lemma CurveStep(h: nat, n: nat, b: nat, w: nat, p: seq<nat>)
    requires n > 0 && w == Digit(h, n, b) && p == Curve(Rest(h, n, b), n, b)
    ensures var m := Pow2(b);
            Curve(h, n, b + 1) == Put(Turned(Faced(p, w, m), Halves(w, n), n - 1, m), Halves(w, n), m)
  {
    hide Turned, Put, Cells, Halves, Digit, Rest, Faced;
  }

  lemma NoLevels(h: nat, n: nat)
    requires n > 0
    ensures Deep(GrayDecode(Deinterleave(h, n, 0)), 0) == Curve(h, n, 0)
  {
    hide GrayDecode, Deinterleave;
  }

  // ---- What the transform computes -----------------------------------------

  /** The transform of skilling.c is the curve, point for point. */
  lemma PointIsCurve(h: nat, n: nat, b: nat)
    requires n > 0 && b > 0 && IsCell(h, n, b)
    ensures Point(h, n, b) == Curve(h, n, b)
  {
    hide Deinterleave, GrayDecode, Undo, Deep, Curve, Bounded, Pow2;
    var g := GrayDecode(Deinterleave(h, n, b));
    UndoIsDeep(g, b - 1);
    DeepIsCurve(h, n, b);
    BoundedParts(h, n, b);
  }

  lemma BoundedParts(h: nat, n: nat, b: nat)
    requires n > 0 && b > 0 && IsCell(h, n, b)
    ensures LowParts(Point(h, n, b), b) == Point(h, n, b)
  {
    hide Point, Low, Pow2;
    IntegerToCoordinates(h, n, b);
    var p := Point(h, n, b);
    forall k | 0 <= k < n ensures Low(p[k], b) == p[k] { LowSmall(p[k], b); }
  }

  /** TransposetoAxes takes the words of a number to its point, whatever the words. */
  lemma AxesOnCurve(s: seq<nat>, b: nat)
    requires |s| > 0 && b > 0 && Bounded(s, b)
    ensures IsCell(Interleave(s, b), |s|, b) && ToAxes(s, b) == Curve(Interleave(s, b), |s|, b)
  {
    hide Deinterleave, Interleave, ToAxes, Curve, Bounded, Pow2;
    InterleaveBelow(s, b);
    DeinterleaveInverts(s, b);
    PointIsCurve(Interleave(s, b), |s|, b);
  }

  /** The number printed for a coordinate vector is its place on the curve, and no other number is. */
  lemma IntegerOnCurve(s: seq<nat>, b: nat, h: nat)
    requires |s| > 0 && b > 0 && Bounded(s, b) && IsCell(h, |s|, b)
    ensures Curve(h, |s|, b) == s <==> h == HilbertInteger(s, b)
  {
    hide Point, HilbertInteger, Curve, Bounded, Pow2;
    CoordinatesToInteger(s, b);
    PointIsCurve(HilbertInteger(s, b), |s|, b);
    PointIsCurve(h, |s|, b);
    IntegerToCoordinates(h, |s|, b);
  }

  /** The first bit of every axis is the Gray code of the first digit of h. */
  lemma FirstBits(h: nat, n: nat, b: nat, k: nat)
    requires k < n && b > 0 && IsCell(h, n, b)
    ensures Bit(Point(h, n, b)[k], b - 1) == (Bit(h, Place(n, b - 1, k)) != Bit(h, Place(n, b - 1, k) + 1))
  {
    hide Bit, Shr, Undo, GrayDecode, Deinterleave, Pow2;
    var g := GrayDecode(Deinterleave(h, n, b));
    UndoKeepsAbove(g, b - 1);
    BitAbove(Undo(g, b - 1), g, b - 1, k, b - 1);
    GrayBit(h, n, b, k, b - 1);
  }

  // ---- The ends ------------------------------------------------------------

  /** The point (c, 0, .., 0). */
  function OnFirstAxis(c: nat, n: nat): (p: seq<nat>)
    requires n > 0
    ensures |p| == n
  {
    seq(n, k requires 0 <= k < n => if k == 0 then c else 0)
  }

  lemma {:induction false} TurnedOrigin(p: seq<nat>, g: seq<bool>, i: nat, m: nat)
    requires i < |p| == |g| && m > 0 && Inside(p, m) && p == OnFirstAxis(0, |p|)
    requires forall k | 0 < k < |g| :: !g[k]
    ensures Turned(p, g, i, m) == OnFirstAxis(if g[0] then m - 1 else 0, |p|)
    decreases i
  {
    if i > 0 {
      assert p[0 := p[i]][i := p[0]] == p;
      TurnedOrigin(p, g, i - 1, m);
    }
  }

  /** All halves are lower ones, but for axis 0 when first is set. */
  ghost predicate OnlyFirstHalf(g: seq<bool>, first: bool) {
    forall k | 0 <= k < |g| :: g[k] == (first && k == 0)
  }

  lemma PutOrigin(g: seq<bool>, m: nat, first: bool)
    requires |g| > 0 && m > 0 && OnlyFirstHalf(g, first)
    ensures var o := OnFirstAxis(0, |g|);
            Put(Turned(o, g, |g| - 1, m), g, m) == OnFirstAxis(if first then 2 * m - 1 else 0, |g|)
  {
    hide Turned;
    TurnedOrigin(OnFirstAxis(0, |g|), g, |g| - 1, m);
  }

  lemma FirstHalves(n: nat)
    ensures OnlyFirstHalf(Halves(0, n), false)
  {
    hide Bit;
    var g := Halves(0, n);
    forall k | 0 <= k < n ensures !g[k] {
      BitZero(n - 1 - k);
      BitZero(n - k);
    }
  }

  lemma LastHalves(n: nat)
    ensures OnlyFirstHalf(Halves(Pow2(n) - 1, n), true)
  {
    hide Bit, Pow2;
    var g := Halves(Pow2(n) - 1, n);
    forall k | 0 <= k < n ensures g[k] == (k == 0) {
      BitOnes(n, n - 1 - k);
      BitOnes(n, n - k);
    }
  }

  /** A copy that starts at the origin, seen from it: as it is, or from its other end. */
  lemma FacedOrigin(n: nat, w: nat, m: nat)
    requires n > 0 && m > 0
    ensures var p := OnFirstAxis(if w % 2 == 1 then m - 1 else 0, n);
            Inside(p, m) && Faced(p, w, m) == OnFirstAxis(0, n)
  {
  }

  /** A copy in cube w, where its end nearer the origin goes when only axis 0 can lie in an upper half. */
  lemma EndStep(h: nat, n: nat, b: nat, w: nat, first: bool)
    requires n > 0 && w == Digit(h, n, b) && (w % 2 == 1) == first && OnlyFirstHalf(Halves(w, n), first)
    requires Curve(Rest(h, n, b), n, b) == OnFirstAxis(if first then Pow2(b) - 1 else 0, n)
    ensures Curve(h, n, b + 1) == OnFirstAxis(if first then 2 * Pow2(b) - 1 else 0, n)
  {
    hide *;
    var p, m := OnFirstAxis(if first then Pow2(b) - 1 else 0, n), Pow2(b);
    FacedOrigin(n, w, m);
    CurveStep(h, n, b, w, p);
    PutOrigin(Halves(w, n), m, first);
  }

  /** The curve starts at the origin. */
  lemma {:induction false} CurveStarts(n: nat, b: nat)
    requires n > 0
    ensures Curve(0, n, b) == OnFirstAxis(0, n)
  {
    hide Turned, Put, Digit, Rest, Halves;
    if b > 0 {
      hide *;
      CurveStarts(n, b - 1);
      FirstDigit(n, b - 1);
      FirstHalves(n);
      EndStep(0, n, b - 1, 0, false);
    }
  }

  lemma {:induction false} OnesParts(m: nat, q: nat)
    ensures Low(Pow2(m + q) - 1, q) == Pow2(q) - 1 && Shr(Pow2(m + q) - 1, q) == Pow2(m) - 1
  {
    if q == 0 {
      NoLowPart(Pow2(m) - 1);
    } else {
      var x := Pow2(m + q) - 1;
      OnesParts(m, q - 1);
      PartsStep(x, q);
      assert Pow2(m + q) == 2 * Pow2(m + q - 1);
      hide *;
      assert x / 2 == Pow2(m + q - 1) - 1 && x % 2 == 1 && m + (q - 1) == m + q - 1;
    }
  }

  lemma LastDigit(n: nat, b: nat)
    ensures Digit(Cells(n, b + 1) - 1, n, b) == Pow2(n) - 1 && Rest(Cells(n, b + 1) - 1, n, b) == Cells(n, b) - 1
  {
    hide Pow2, Low, Shr;
    OneMoreLevel(b + 1, n);
    OnesParts(n, b * n);
  }

  lemma FirstDigit(n: nat, b: nat)
    ensures Digit(0, n, b) == 0 && Rest(0, n, b) == 0
  {
    ZeroParts(b * n);
  }

  lemma {:induction false} ZeroParts(q: nat)
    ensures Low(0, q) == 0 && Shr(0, q) == 0
  {
    if q > 0 { ZeroParts(q - 1); }
  }

  /** The curve ends at the far end of axis 0. */
  lemma {:induction false} CurveEnds(n: nat, b: nat)
    requires n > 0
    ensures Curve(Cells(n, b) - 1, n, b) == OnFirstAxis(Pow2(b) - 1, n)
  {
    hide *;
    if b == 0 {
      OneCell(n, b);
    } else {
      OddOnes(n);
      TwiceAsWide(b);
      CurveEnds(n, b - 1);
      LastDigit(n, b - 1);
      LastHalves(n);
      EndStep(Cells(n, b) - 1, n, b - 1, Pow2(n) - 1, true);
    }
  }

  lemma OneCell(n: nat, b: nat)
    requires n > 0 && b == 0
    ensures Curve(Cells(n, b) - 1, n, b) == OnFirstAxis(Pow2(b) - 1, n)
  {
    hide Cells, Turned, Put;
    assert Pow2(b) == 1;
  }

  lemma TwiceAsWide(b: nat)
    requires b > 0
    ensures Pow2(b) == 2 * Pow2(b - 1)
  {
  }

  lemma OddOnes(n: nat)
    requires n > 0
    ensures (Pow2(n) - 1) % 2 == 1
  {
    hide Pow2;
    TwiceAsWide(n);
    assert Pow2(n) - 1 == 2 * (Pow2(n - 1) - 1) + 1;
  }

  /** Corner to corner: the first and the last number. */
  lemma Ends(n: nat, b: nat)
    requires n > 0 && b > 0
    ensures Point(0, n, b) == OnFirstAxis(0, n)
    ensures Point(Pow2(b * n) - 1, n, b) == OnFirstAxis(Pow2(b) - 1, n)
  {
    hide Point, Curve, OnFirstAxis, Pow2;
    PointIsCurve(0, n, b);
    PointIsCurve(Pow2(b * n) - 1, n, b);
    CurveStarts(n, b);
    CurveEnds(n, b);
  }
}
