/**
 The node-name scanner of contribs/cray/capmc_resume.c: the bitmap it builds from
 text such as "nid[00010-00012,00020],nid00040" is the set of numbers and ranges
 the text denotes.
 */
module NidList {
  import opened Decimal

  /** lo, lo+1, ..., hi */
  function Range(lo: nat, hi: nat): (s: set<nat>)
    ensures forall x: nat :: x in s <==> lo <= x <= hi
    decreases hi - lo
  {
    if hi < lo then {} else if hi == lo then {lo} else Range(lo, hi - 1) + {hi}
  }

  // ---- What the scanner does with any text ---------------------------------

  function SkipZeros(s: string): (t: string)
    ensures |t| <= |s|
  {
    if s != "" && s[0] == '0' then SkipZeros(s[1..]) else s
  }

  function SkipBracket(s: string): (t: string)
    ensures |t| <= |s|
  {
    if s != "" && s[0] == '[' then s[1..] else s
  }

  /** The digits read for a number at the start of the text, and what follows them. */
  function NumberAt(s: string): (r: (nat, string))
    ensures |r.1| <= |s|
  {
    var t := SkipBracket(SkipZeros(s));
    var d := DigitPrefix(t);
    DigitPrefixLength(t);
    (Value(d), t[|d|..])
  }

  lemma {:induction false} DigitPrefixLength(t: string)
    ensures |DigitPrefix(t)| <= |t|
  {
    if t != "" && IsDigit(t[0]) { DigitPrefixLength(t[1..]); }
  }

  /** The bits set from here on; `dash` says that the number before ended in '-'. */
  function Scan(s: string, dash: bool, last: nat): set<nat>
    decreases |s|
  {
    if s == "" then {}
    else if !IsDigit(s[0]) then Scan(s[1..], dash, last)
    else
      var (n, u) := NumberAt(s);
      var bits := if dash && n >= last then Range(last, n) else {n};
      if u == "" then bits
      else bits + Scan(u[1..], u[0] == '-', if u[0] == '-' then n else last)
  }

  // ---- Node lists ----------------------------------------------------------

  /** A zero-padded number; `pad` zeros may stand before an opening bracket, as in nid000[10-12]. */
  datatype Number = Number(pad: string, digits: string)

  /** A number or a range, after some text without digits. */
  datatype Item = One(sep: string, n: Number) | Span(sep: string, lo: Number, gap: string, hi: Number)

  predicate NoDigits(s: string) { forall i | 0 <= i < |s| :: !IsDigit(s[i]) }

  ghost predicate Zeros(s: string) { forall i | 0 <= i < |s| :: s[i] == '0' }

  ghost predicate GoodNumber(n: Number) { Zeros(n.pad) && n.digits != "" && AllDigits(n.digits) }

  function NumberText(n: Number): string { if n.pad == "" then n.digits else n.pad + "[" + n.digits }

  function NumberValue(n: Number): nat
    requires AllDigits(n.digits)
  {
    Value(n.digits)
  }

  /** Text that may follow a number: no digit, and neither a dash nor a bracket first. */
  ghost predicate GoodSeparator(s: string) { s != "" && NoDigits(s) && s[0] != '-' && s[0] != '[' }

  ghost predicate GoodItem(it: Item) {
    match it
    case One(sep, n) => NoDigits(sep) && GoodNumber(n)
    case Span(sep, lo, gap, hi) =>
      NoDigits(sep) && GoodNumber(lo) && NoDigits(gap) && GoodNumber(hi)
  }

  ghost predicate GoodList(items: seq<Item>) {
    && (forall i | 0 <= i < |items| :: GoodItem(items[i]))
    && (forall i | 0 < i < |items| :: GoodSeparator(items[i].sep))
  }

  function ItemText(it: Item): string {
    match it
    case One(sep, n) => sep + NumberText(n)
    case Span(sep, lo, gap, hi) => sep + NumberText(lo) + "-" + gap + NumberText(hi)
  }

  function Text(items: seq<Item>, end: string): string {
    if items == [] then end else ItemText(items[0]) + Text(items[1..], end)
  }

  /** A range that runs downward stands for its two ends. */
  function Meaning(it: Item): set<nat>
    requires match it case One(_, n) => AllDigits(n.digits) case Span(_, lo, _, hi) => AllDigits(lo.digits) && AllDigits(hi.digits)
  {
    match it
    case One(_, n) => {NumberValue(n)}
    case Span(_, lo, _, hi) =>
      var a, b := NumberValue(lo), NumberValue(hi);
      if a <= b then Range(a, b) else {a, b}
  }

  function Denotes(items: seq<Item>): set<nat>
    requires GoodList(items)
  {
    if items == [] then {} else Meaning(items[0]) + Denotes(items[1..])
  }

  // ---- Reading numbers -----------------------------------------------------

  lemma {:induction false} LeadingZero(d: string)
    requires AllDigits(d)
    ensures Value(['0'] + d) == Value(d)
  {
    if d != "" {
      var n := |d| - 1;
      LeadingZero(d[..n]);
      assert (['0'] + d)[..n + 1] == ['0'] + d[..n];
    }
  }

  /** What a number reads as from its first digit that is not zero. */
  lemma DigitsRead(d: string, u: string)
    requires AllDigits(d) && (d == "" || d[0] != '0') && (u == "" || (!IsDigit(u[0]) && u[0] != '['))
    ensures NumberAt(d + u) == (Value(d), u)
  {
    DigitPrefixStops(d, u);
    hide DigitPrefix, Value;
    if d == "" { assert d + u == u; }
    assert (d + u)[|d|..] == u;
  }

  /** Skipping zeros in front of digits does not change the value read. */
  lemma {:induction false} ZerosSkipped(d: string, u: string)
    requires AllDigits(d) && (u == "" || (!IsDigit(u[0]) && u[0] != '['))
    ensures NumberAt(d + u) == (Value(d), u)
  {
    hide DigitPrefix, Value, NumberAt;
    if d != "" && d[0] == '0' {
      ZerosSkipped(d[1..], u);
      ZeroFirst(d, u);
      LeadingZero(d[1..]);
    } else {
      DigitsRead(d, u);
    }
  }

  lemma ZeroFirst(d: string, u: string)
    requires d != "" && d[0] == '0'
    ensures NumberAt(d + u) == NumberAt(d[1..] + u) && d == ['0'] + d[1..]
  {
    hide DigitPrefix, Value;
    assert (d + u)[1..] == d[1..] + u;
  }

  lemma {:induction false} PadSkipped(z: string, t: string)
    requires Zeros(z) && (t == "" || t[0] != '0')
    ensures SkipZeros(z + t) == t
  {
    if z == "" {
      assert z + t == t;
    } else {
      assert (z + t)[1..] == z[1..] + t;
      PadSkipped(z[1..], t);
    }
  }

  lemma NumberRead(n: Number, u: string)
    requires GoodNumber(n) && (u == "" || (!IsDigit(u[0]) && u[0] != '['))
    ensures NumberAt(NumberText(n) + u) == (NumberValue(n), u)
    ensures NumberText(n) != "" && IsDigit(NumberText(n)[0])
  {
    if n.pad == "" {
      ZerosSkipped(n.digits, u);
    } else {
      var t := "[" + n.digits + u;
      assert NumberText(n) + u == n.pad + t;
      PadSkipped(n.pad, t);
      assert t[1..] == n.digits + u;
      DigitPrefixStops(n.digits, u);
      assert (n.digits + u)[|n.digits|..] == u;
    }
  }

  lemma {:induction false} TextSkipped(sep: string, s: string, dash: bool, last: nat)
    requires NoDigits(sep)
    ensures Scan(sep + s, dash, last) == Scan(s, dash, last)
  {
    if sep == "" {
      assert sep + s == s;
    } else {
      assert (sep + s)[1..] == sep[1..] + s;
      TextSkipped(sep[1..], s, dash, last);
    }
  }

  /** A number and the text after it. */
  lemma ScanNumber(n: Number, u: string, dash: bool, last: nat)
    requires GoodNumber(n) && (u == "" || (!IsDigit(u[0]) && u[0] != '['))
    ensures var v := NumberValue(n);
            Scan(NumberText(n) + u, dash, last) ==
              (if dash && v >= last then Range(last, v) else {v})
              + (if u == "" then {} else Scan(u[1..], u[0] == '-', if u[0] == '-' then v else last))
  {
    NumberRead(n, u);
    var s := NumberText(n) + u;
    assert s != "" && IsDigit(s[0]);
  }

  /** After a separator that starts with neither dash nor bracket no range is pending. */
  lemma ScanAfter(u: string, last: nat)
    requires u != "" && !IsDigit(u[0]) && u[0] != '-'
    ensures Scan(u[1..], u[0] == '-', last) == Scan(u, false, last)
  {
  }

  lemma {:induction false} PendingIrrelevant(s: string, last: nat, last': nat)
    ensures Scan(s, false, last) == Scan(s, false, last')
    decreases |s|
  {
    if s != "" {
      if !IsDigit(s[0]) {
        PendingIrrelevant(s[1..], last, last');
      } else {
        var (n, u) := NumberAt(s);
        if u != "" && u[0] != '-' { PendingIrrelevant(u[1..], last, last'); }
      }
    }
  }

  /** What may follow an item: nothing, or a proper separator. */
  ghost predicate GoodRest(u: string) { u == "" || (!IsDigit(u[0]) && u[0] != '[' && u[0] != '-') }

  lemma ScanItem(it: Item, u: string, last: nat)
    requires GoodItem(it) && GoodRest(u)
    ensures Scan(ItemText(it) + u, false, last) == Meaning(it) + Scan(u, false, last)
  {
    hide Scan;
    match it
    case One(sep, n) =>
      assert ItemText(it) + u == sep + (NumberText(n) + u);
      TextSkipped(sep, NumberText(n) + u, false, last);
      ScanLast(n, u, false, last);
    case Span(sep, lo, gap, hi) =>
      var tail := NumberText(hi) + u;
      var mid := "-" + (gap + tail);
      assert ItemText(it) + u == sep + (NumberText(lo) + mid);
      TextSkipped(sep, NumberText(lo) + mid, false, last);
      ScanNumber(lo, mid, false, last);
      assert mid[1..] == gap + tail;
      var v := NumberValue(lo);
      TextSkipped(gap, tail, true, v);
      ScanLast(hi, u, true, v);
      PendingIrrelevant(u, v, last);
  }

  /** A number that ends its item. */
  lemma ScanLast(n: Number, u: string, dash: bool, last: nat)
    requires GoodNumber(n) && GoodRest(u)
    ensures var v := NumberValue(n);
            Scan(NumberText(n) + u, dash, last) ==
              (if dash && v >= last then Range(last, v) else {v}) + Scan(u, false, last)
  {
    ScanNumber(n, u, dash, last);
    if u != "" { ScanAfter(u, last); }
  }

  /** For every well-formed list, whatever non-digits close it, the bits set are exactly the numbers denoted. */
  lemma {:induction false} ScanMeansDenotation(items: seq<Item>, end: string, last: nat)
    requires GoodList(items) && (end == "" || GoodSeparator(end))
    ensures Scan(Text(items, end), false, last) == Denotes(items)
    decreases |items|
  {
    if items == [] {
      assert end + "" == end;
      TextSkipped(end, "", false, last);
    } else {
      var u := Text(items[1..], end);
      RestStarts(items, end);
      assert GoodList(items[1..]);
      ScanMeansDenotation(items[1..], end, last);
      ScanItem(items[0], u, last);
    }
  }

  lemma RestStarts(items: seq<Item>, end: string)
    requires GoodList(items) && items != [] && (end == "" || GoodSeparator(end))
    ensures GoodRest(Text(items[1..], end))
  {
    if |items| > 1 {
      var it := items[1];
      assert items[1..][0] == it && GoodSeparator(it.sep);
      assert ItemText(it)[0] == it.sep[0];
    }
  }

  // ---- The cursor ----------------------------------------------------------

  const BITS := 100000

  /** The byte at i; a C string ends in NUL. */
  function At(s: string, i: nat): char { if i < |s| then s[i] else '\0' }

  ghost function BitsOf(b: array<bool>): (r: set<nat>)
    reads b
    ensures forall x: nat :: x in r <==> x < b.Length && b[x]
  {
    set x: nat | x < b.Length && b[x]
  }

  /** Leading zeros, and the bracket that may follow them. */
  method SkipPad(s: string, i0: nat) returns (i: nat)
    requires i0 <= |s|
    ensures i0 <= i <= |s| && s[i..] == SkipBracket(SkipZeros(s[i0..]))
    ensures i == i0 ==> i == |s| || s[i] != '0'
  {
    i := i0;
    while At(s, i) == '0'
      invariant i0 <= i <= |s| && SkipZeros(s[i..]) == SkipZeros(s[i0..])
      decreases |s| - i
    {
      assert s[i..][1..] == s[i + 1..];
      i := i + 1;
    }
    assert i < |s| ==> s[i..][0] == s[i];
    if At(s, i) == '[' {
      assert s[i..][1..] == s[i + 1..];
      i := i + 1;
    }
  }

  /** The digit loop. */
  method ReadDigits(s: string, start: nat) returns (n: nat, i: nat)
    requires start <= |s|
    ensures start <= i <= |s| && i - start == |DigitPrefix(s[start..])| && n == Value(DigitPrefix(s[start..]))
  {
    hide DigitPrefix, Value, AllDigits;
    ghost var t := s[start..];
    i, n := start, 0;
    ghost var read := "";
    DigitsStart(t);
    while IsDigit(At(s, i))
      invariant start <= i <= |s| && AllDigits(read) && n == Value(read) && |read| == i - start
      invariant read + DigitPrefix(s[i..]) == DigitPrefix(t)
      decreases |s| - i
    {
      DigitsStep(read, s[i..], t);
      TailOf(s, i);
      read := read + [s[i]];
      n := n * 10;
      n := n + DigitValue(s[i]);
      i := i + 1;
    }
    if i < |s| { TailOf(s, i); }
    DigitsStep(read, s[i..], t);
  }

  lemma TailOf(s: string, i: nat)
    requires i < |s|
    ensures s[i..] != "" && s[i..][0] == s[i] && s[i..][1..] == s[i + 1..]
  {
  }

  lemma DigitsStart(t: string)
    ensures "" + DigitPrefix(t) == DigitPrefix(t) && AllDigits("") && Value("") == 0
  {
  }

  lemma DigitsStep(read: string, u: string, t: string)
    requires AllDigits(read) && read + DigitPrefix(u) == DigitPrefix(t)
    ensures u != "" && IsDigit(u[0]) ==>
              && read + [u[0]] + DigitPrefix(u[1..]) == DigitPrefix(t)
              && AllDigits(read + [u[0]]) && Value(read + [u[0]]) == Value(read) * 10 + DigitValue(u[0])
    ensures u == "" || !IsDigit(u[0]) ==> read == DigitPrefix(t)
  {
    if u != "" && IsDigit(u[0]) {
      assert read + ([u[0]] + DigitPrefix(u[1..])) == read + [u[0]] + DigitPrefix(u[1..]);
      assert (read + [u[0]])[..|read|] == read;
    } else {
      assert read + "" == read;
    }
  }

  /** One number from i0 on. */
  method ReadNumber(s: string, i0: nat) returns (n: nat, i: nat)
    requires i0 < |s| && IsDigit(s[i0])
    ensures i0 < i <= |s| && (n, s[i..]) == NumberAt(s[i0..])
  {
    hide SkipZeros, SkipBracket, Value;
    var start := SkipPad(s, i0);
    n, i := ReadDigits(s, start);
    assert s[start..][i - start..] == s[i..];
    if start == i0 { assert s[start..][0] == s[i0]; }
  }

  /** _node_names_2_nid_list up to the bitmap. */
  method NodeNamesToBits(s: string, bits: array<bool>)
    requires bits.Length == BITS && '\0' !in s
    requires forall x | x in Scan(s, false, 0) :: x < BITS
    modifies bits
    ensures BitsOf(bits) == old(BitsOf(bits)) + Scan(s, false, 0)
  {
    hide Scan;
    var i, last, dash := 0, 0, false;
    assert s[0..] == s;
    while i < |s|
      invariant 0 <= i <= |s|
      invariant BitsOf(bits) + Scan(s[i..], dash, last) == old(BitsOf(bits)) + Scan(s, false, 0)
      invariant forall x | x in Scan(s[i..], dash, last) :: x < BITS
      decreases |s| - i
    {
      ScanStep(s[i..], dash, last);
      assert s[i..][1..] == s[i + 1..];
      if IsDigit(s[i]) {
        var n;
        ghost var i0 := i;
        n, i := ReadNumber(s, i);
        ghost var before := BitsOf(bits);
        if dash && n >= last {
          SetRange(bits, last, n);
        } else {
          bits[n] := true;
          assert BitsOf(bits) == before + {n};
        }
        if i == |s| { return; }
        dash := s[i] == '-';
        if dash { last := n; }
        assert s[i..][1..] == s[i + 1..];
      }
      i := i + 1;
    }
    ScanStep(s[i..], dash, last);
  }

  lemma ScanStep(s: string, dash: bool, last: nat)
    ensures s == "" ==> Scan(s, dash, last) == {}
    ensures s != "" && !IsDigit(s[0]) ==> Scan(s, dash, last) == Scan(s[1..], dash, last)
    ensures s != "" && IsDigit(s[0]) ==>
              var (n, u) := NumberAt(s);
              Scan(s, dash, last) == (if dash && n >= last then Range(last, n) else {n})
                + (if u == "" then {} else Scan(u[1..], u[0] == '-', if u[0] == '-' then n else last))
  {
  }

  /** bit_nset */
  method SetRange(bits: array<bool>, lo: nat, hi: nat)
    requires lo <= hi < bits.Length
    modifies bits
    ensures BitsOf(bits) == old(BitsOf(bits)) + Range(lo, hi)
  {
    var x := lo;
    while x <= hi
      invariant lo <= x <= hi + 1
      invariant forall y | 0 <= y < bits.Length :: bits[y] == (old(bits[y]) || lo <= y < x)
    {
      bits[x] := true;
      x := x + 1;
    }
  }
}
