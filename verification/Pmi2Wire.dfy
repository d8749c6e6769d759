/**
 The PMI-2 wire format (contribs/pmi2/pmi2_api.c): what a frame is, when the
 writer sends one, and what the reader makes of any byte stream.  A byte is a
 `char`; nothing depends on the size of the alphabet.
 */
module Pmi2Wire {
  import opened Decimal
  import opened Seqs

  const MAX_KEYLEN := 64
  const MAX_VALLEN := 1024
  const COMMANDLEN_SIZE := 6
  const MAX_COMMAND_LEN := 65536

  datatype Pair = Pair(key: string, value: string)

  // ---- Frames --------------------------------------------------------------

  /** Semicolons are doubled inside a value. */
  function Escape(v: string): string {
    if v == "" then "" else (if v[0] == ';' then ";;" else [v[0]]) + Escape(v[1..])
  }

  function PairText(p: Pair): string { p.key + "=" + Escape(p.value) + ";" }

  function PairsText(ps: seq<Pair>): string {
    if ps == [] then "" else PairText(ps[0]) + PairsText(ps[1..])
  }

  function Body(cmd: string, ps: seq<Pair>): string { "cmd=" + cmd + ";" + PairsText(ps) }

  function Spaces(n: nat): (s: string)
    ensures |s| == n && forall i | 0 <= i < n :: s[i] == ' '
  {
    seq(n, i => ' ')
  }

  /** The length field: decimal, left-aligned, padded with spaces. */
  function Header(n: nat): (s: string)
    requires |Numeral(n)| <= COMMANDLEN_SIZE
    ensures |s| == COMMANDLEN_SIZE
  {
    Numeral(n) + Spaces(COMMANDLEN_SIZE - |Numeral(n)|)
  }

  // ---- When a frame is sent ------------------------------------------------

  /** `WriteFailed` is an error of the descriptor; the others are the writer's own verdicts. */
  datatype WriteStatus = Sent | CmdTooLong | KeyTooLong | ValTooLong | NoRoom | Overrun | WriteFailed

  /**
   The writer's verdict on one pair when `used` bytes of the buffer are taken.
   Key and `=` are checked against the room left; the value, its terminator and
   the final NUL are not, so a value that does not fit is an `Overrun`.
   */
  function PairStatus(used: nat, p: Pair): (st: WriteStatus)
    ensures st != WriteFailed
  {
    if |p.key| > MAX_KEYLEN then KeyTooLong
    else if used + |p.key| + 1 >= MAX_COMMAND_LEN then NoRoom
    else if |p.value| > MAX_VALLEN then ValTooLong
    else if used + |PairText(p)| > MAX_COMMAND_LEN then Overrun
    else Sent
  }

  function PairsStatus(used: nat, ps: seq<Pair>): (st: WriteStatus)
    ensures st != WriteFailed
    decreases |ps|
  {
    if ps == [] then
      if used < MAX_COMMAND_LEN then Sent else Overrun
    else if PairStatus(used, ps[0]) != Sent then PairStatus(used, ps[0])
    else PairsStatus(used + |PairText(ps[0])|, ps[1..])
  }

  function Status(cmd: string, ps: seq<Pair>): (st: WriteStatus)
    ensures st != WriteFailed
  {
    if |cmd| > MAX_VALLEN then CmdTooLong
    else PairsStatus(COMMANDLEN_SIZE + |cmd| + 5, ps)
  }

  /** The limits a caller can check. */
  ghost predicate WithinLimits(cmd: string, ps: seq<Pair>) {
    && |cmd| <= MAX_VALLEN
    && (forall i | 0 <= i < |ps| :: |ps[i].key| <= MAX_KEYLEN && |ps[i].value| <= MAX_VALLEN)
    && COMMANDLEN_SIZE + |Body(cmd, ps)| < MAX_COMMAND_LEN
  }

  lemma {:induction false} PairsSentIff(used: nat, ps: seq<Pair>)
    ensures PairsStatus(used, ps) == Sent <==>
            && used + |PairsText(ps)| < MAX_COMMAND_LEN
            && forall i | 0 <= i < |ps| :: |ps[i].key| <= MAX_KEYLEN && |ps[i].value| <= MAX_VALLEN
    decreases |ps|
  {
    if ps != [] {
      PairsSentIff(used + |PairText(ps[0])|, ps[1..]);
      assert forall i | 0 <= i < |ps| :: ps[i] == if i == 0 then ps[0] else ps[1..][i - 1];
    }
  }

  /** A frame goes out exactly when every length is within its limit. */
  lemma SentIffWithinLimits(cmd: string, ps: seq<Pair>)
    ensures Status(cmd, ps) == Sent <==> WithinLimits(cmd, ps)
  {
    if |cmd| <= MAX_VALLEN { PairsSentIff(COMMANDLEN_SIZE + |cmd| + 5, ps); }
  }

  /** The limit that a status names is exceeded. */
  ghost predicate Exceeded(st: WriteStatus, used: nat, ps: seq<Pair>) {
    match st
    case Sent => true
    case KeyTooLong => exists i | 0 <= i < |ps| :: |ps[i].key| > MAX_KEYLEN
    case ValTooLong => exists i | 0 <= i < |ps| :: |ps[i].value| > MAX_VALLEN
    case NoRoom => used + |PairsText(ps)| >= MAX_COMMAND_LEN
    case Overrun => used + |PairsText(ps)| >= MAX_COMMAND_LEN
    case _ => false
  }

  lemma {:induction false} PairsExceeded(used: nat, ps: seq<Pair>)
    ensures Exceeded(PairsStatus(used, ps), used, ps)
    decreases |ps|
  {
    if ps != [] {
      hide Escape;
      PairsExceeded(used + |PairText(ps[0])|, ps[1..]);
      assert forall i | 0 < i < |ps| :: ps[i] == ps[1..][i - 1];
    }
  }

  /** A command that is not sent is refused for a limit that it really exceeds. */
  lemma RefusedForALimit(cmd: string, ps: seq<Pair>)
    ensures var st := Status(cmd, ps);
            if st == CmdTooLong then |cmd| > MAX_VALLEN else Exceeded(st, COMMANDLEN_SIZE + |cmd| + 5, ps)
  {
    hide PairsText;
    PairsExceeded(COMMANDLEN_SIZE + |cmd| + 5, ps);
  }

  function Copies(p: Pair, n: nat): seq<Pair> {
    if n == 0 then [] else [p] + Copies(p, n - 1)
  }

  lemma {:induction false} CopiesStatus(p: Pair, used: nat, n: nat)
    requires |p.key| <= MAX_KEYLEN && |p.value| <= MAX_VALLEN && n > 0
    requires used + (n - 1) * |PairText(p)| + |p.key| + 1 < MAX_COMMAND_LEN < used + n * |PairText(p)|
    ensures PairsStatus(used, Copies(p, n)) == Overrun
    decreases n
  {
    if n > 1 {
      assert (n - 1) * |PairText(p)| == |PairText(p)| + (n - 2) * |PairText(p)|;
      CopiesStatus(p, used + |PairText(p)|, n - 1);
      assert Copies(p, n)[1..] == Copies(p, n - 1);
    }
  }

  lemma {:induction false} EscapeLetters(n: nat)
    ensures |Escape(seq(n, i => 'a'))| == n
  {
    if n > 0 {
      assert seq(n, i => 'a')[1..] == seq(n - 1, i => 'a');
      EscapeLetters(n - 1);
    }
  }

  /** The limits on single keys and values do not suffice: 64 pairs of full-length values run past the buffer. */
  lemma SingleLimitsDoNotSuffice()
    ensures exists ps: seq<Pair> ::
              && (forall i | 0 <= i < |ps| :: |ps[i].key| <= MAX_KEYLEN && |ps[i].value| <= MAX_VALLEN)
              && Status("put", ps) == Overrun
  {
    var p := Pair("k", seq(MAX_VALLEN, i => 'a'));
    EscapeLetters(MAX_VALLEN);
    assert |PairText(p)| == 1027;
    CopiesStatus(p, COMMANDLEN_SIZE + 8, 64);
    CopiesMembers(p, 64);
    var ps := Copies(p, 64);
    assert Status("put", ps) == Overrun;
  }

  lemma {:induction false} CopiesMembers(p: Pair, n: nat)
    ensures forall i | 0 <= i < |Copies(p, n)| :: Copies(p, n)[i] == p
  {
    if n > 0 { CopiesMembers(p, n - 1); }
  }

  lemma BodyLengthFits(n: nat)
    requires n < MAX_COMMAND_LEN
    ensures |Numeral(n)| < COMMANDLEN_SIZE
  {
    assert Pow10(5) == 100000;
    NumeralLength(n, 5);
  }

  function Frame(cmd: string, ps: seq<Pair>): string
    requires |Body(cmd, ps)| < MAX_COMMAND_LEN
  {
    BodyLengthFits(|Body(cmd, ps)|);
    Header(|Body(cmd, ps)|) + Body(cmd, ps)
  }

  lemma EscapeExample(v: string)
    requires v == "a;b"
    ensures Escape(v) == "a;;b"
  {
    var w, x := v[1..], v[1..][1..];
    assert x[1..] == "" && Escape(x) == ['b'];
    assert Escape(w) == ";;" + Escape(x) && Escape(v) == ['a'] + Escape(w);
  }

  lemma BodyExample(ps: seq<Pair>)
    requires ps == [Pair("key", "a;b")]
    ensures Body("get", ps) == "cmd=get;key=a;;b;"
  {
    hide Escape;
    EscapeExample(ps[0].value);
    assert ps[1..] == [] && PairsText(ps) == PairText(ps[0]) + "";
  }

  lemma HeaderExample(n: nat)
    requires n == 17
    ensures |Numeral(n)| <= COMMANDLEN_SIZE && Header(n) == "17    "
  {
    assert Numeral(n / 10) == "1" && Numeral(n) == "17";
  }

  /** A frame as it goes out. */
  lemma FrameExample(ps: seq<Pair>)
    requires ps == [Pair("key", "a;b")]
    ensures |Body("get", ps)| == 17 && Frame("get", ps) == "17    cmd=get;key=a;;b;"
  {
    hide Body, Header, Numeral;
    BodyExample(ps);
    HeaderExample(|Body("get", ps)|);
  }

  // ---- What the reader makes of a byte stream ------------------------------

  datatype Option<T> = None | Some(value: T)

  /** Position of the first c, or the length. */
  function IndexOf(t: string, c: char): (i: nat)
    ensures i <= |t| && (i < |t| ==> t[i] == c) && forall k | 0 <= k < i :: t[k] != c
  {
    FirstIndex(t, (x: char) => x == c)
  }

  /** A scanned value: the unescaped text and the bytes it took, terminator included. */
  datatype Scan = Open | Closed(text: string, used: nat)

  /** The value text up to its terminating single `;`. */
  function ValueAt(t: string): (r: Scan)
    ensures r.Closed? ==> 0 < r.used <= |t| && |r.text| < r.used
  {
    if t == "" then Open
    else if t[0] == ';' then
      if |t| > 1 && t[1] == ';' then Extend(";", 2, ValueAt(t[2..]))
      else Closed("", 1)
    else Extend([t[0]], 1, ValueAt(t[1..]))
  }

  function Extend(v: string, n: nat, r: Scan): Scan {
    if r.Open? then Open else Closed(v + r.text, n + r.used)
  }

  /** A C string ends at its first NUL. */
  function CString(t: string): string { t[..IndexOf(t, '\0')] }

  datatype Parsed = Bad | Good(key: string, value: string, rest: string, rawKey: string)

  function KeyvalAt(t: string): (r: Parsed)
    ensures r.Good? ==> |r.rest| < |t|
  {
    var i := IndexOf(t, '=');
    if i == |t| || i > MAX_KEYLEN then Bad
    else
      var r := ValueAt(t[i + 1..]);
      if r.Open? || |r.text| > MAX_VALLEN then Bad
      else Good(CString(t[..i]), r.text, t[i + 1 + r.used..], t[..i])
  }

  /** The pairs of a text, or None when some pair is malformed. */
  function PairsOf(t: string): (r: Option<seq<Pair>>)
    decreases |t|
  {
    if t == "" then Some([])
    else match KeyvalAt(t)
      case Bad => None
      case Good(k, v, rest, _) =>
        match PairsOf(rest)
        case None => None
        case Some(ps) => Some([Pair(k, v)] + ps)
  }

  /** The counting pass: one per single `;`, one for an unterminated tail. */
  function CountPairs(t: string, inToken: bool): nat {
    if t == "" then (if inToken then 1 else 0)
    else if t[0] == ';' then
      if |t| > 1 && t[1] == ';' then CountPairs(t[2..], false)
      else 1 + CountPairs(t[1..], false)
    else CountPairs(t[1..], true)
  }

  /** What the value of a `thrid` pair names: the command the caller waits for, another one, or nothing readable. */
  datatype Target = Mine | Another | Garbled

  /**
   `Unfilled`: the search for a target runs over as many slots as were counted and
   so reads one that was never filled.  `BadTarget`: the target is used though it
   could not be read.  `NegativeLength`: the header asks for a negative number of
   bytes.  What the program does then is not determined.
   */
  datatype ReadResult =
    | Command(name: string, pairs: seq<Pair>, nPairs: nat)
    | Unfilled(pairs: seq<Pair>, nPairs: nat)
    | BadTarget
    | ReadFailed
    | NegativeLength
    | BadKeyval
    | BadCmd
    | OtherTarget

  /** The first pair with the key, or the number of pairs. */
  function FirstKey(ps: seq<Pair>, key: string): (i: nat)
    ensures i <= |ps| && (i < |ps| ==> ps[i].key == key)
    ensures forall k | 0 <= k < i :: ps[k].key != key
  {
    FirstIndex(ps, (p: Pair) => p.key == key)
  }

  predicate HasKey(ps: seq<Pair>, key: string) { FirstKey(ps, key) < |ps| }

  /** The verdict once everything is parsed: the pairs stored and the slots counted for them. */
  function Verdict(name: string, ps: seq<Pair>, nPairs: nat, who: string -> Target): ReadResult {
    var i := FirstKey(ps, "thrid");
    if i < |ps| then
      if ps[i].value == "" then BadTarget
      else match who(ps[i].value)
        case Mine => Command(name, ps, nPairs)
        case Another => OtherTarget
        case Garbled => BadTarget
    else if |ps| < nPairs then Unfilled(ps, nPairs)
    else Command(name, ps, nPairs)
  }

  function ParseBody(body: string, who: string -> Target): ReadResult {
    match KeyvalAt(body)
    case Bad => BadKeyval
    case Good(k, v, rest, _) =>
      if k != "cmd" then BadCmd
      else match PairsOf(rest)
        case None => BadKeyval
        case Some(ps) =>
          var n := CountPairs(body, false);
          Verdict(v, ps, if n == 0 then 0 else n - 1, who)
  }

  /** One frame: its result and the unread rest of the stream. */
  function ReadOne(s: string, who: string -> Target): (r: (ReadResult, string))
    ensures |r.1| <= |s| && (r.0 != ReadFailed ==> |r.1| < |s|)
  {
    if |s| < COMMANDLEN_SIZE then (ReadFailed, "")
    else
      var len, t := Atoi(s[..COMMANDLEN_SIZE]), s[COMMANDLEN_SIZE..];
      if len < 0 then (NegativeLength, t)
      else if len == 0 then (ReadFailed, t)
      else if |t| < len then (ReadFailed, "")
      else (ParseBody(t[..len], who), t[len..])
  }

  /** One call of the reader: frames meant for another waiting command are passed over. */
  function ReadMine(s: string, who: string -> Target): (ReadResult, string)
    decreases |s|
  {
    var (r, t) := ReadOne(s, who);
    if r.OtherTarget? then ReadMine(t, who) else (r, t)
  }

  // ---- Counting bounds parsing ---------------------------------------------

  /** Pairs parsed before the end or the first malformed one. */
  function ParsedPairs(t: string): nat
    decreases |t|
  {
    if t == "" then 0
    else match KeyvalAt(t)
      case Bad => 0
      case Good(_, _, rest, _) => 1 + ParsedPairs(rest)
  }

  /** Single semicolons in a key, which the counting pass takes for pair ends. */
  function Singles(k: string): nat {
    if k == "" then 0
    else if k[0] == ';' then
      if |k| > 1 && k[1] == ';' then Singles(k[2..]) else 1 + Singles(k[1..])
    else Singles(k[1..])
  }

  /** Single semicolons over all the keys of a text. */
  function KeySingles(t: string): nat
    decreases |t|
  {
    if t == "" then 0
    else match KeyvalAt(t)
      case Bad => 0
      case Good(_, _, rest, raw) => Singles(raw) + KeySingles(rest)
  }

  lemma {:induction false} CountOverKey(k: string, u: string, m: bool)
    ensures CountPairs(k + "=" + u, m) == Singles(k) + CountPairs(u, true)
    decreases |k|
  {
    var t := k + "=" + u;
    if k == "" {
      assert t[1..] == u;
    } else if k[0] == ';' && |k| > 1 && k[1] == ';' {
      assert t[2..] == k[2..] + "=" + u;
      CountOverKey(k[2..], u, false);
    } else {
      assert t[1..] == k[1..] + "=" + u;
      CountOverKey(k[1..], u, k[0] != ';');
    }
  }

  lemma {:induction false} CountOverValue(t: string, m: bool)
    requires ValueAt(t).Closed?
    ensures CountPairs(t, m) == 1 + CountPairs(t[ValueAt(t).used..], false)
    decreases |t|
  {
    if t[0] == ';' {
      if |t| > 1 && t[1] == ';' { CountOverValue(t[2..], false); }
    } else {
      CountOverValue(t[1..], true);
    }
  }

  lemma SplitAtIndex(t: string, i: nat)
    requires i < |t| && t[i] == '='
    ensures t == t[..i] + "=" + t[i + 1..]
  {
  }

  lemma CountOverPair(t: string, m: bool)
    requires KeyvalAt(t).Good?
    ensures var r := KeyvalAt(t);
            CountPairs(t, m) == Singles(r.rawKey) + 1 + CountPairs(r.rest, false)
  {
    hide ValueAt, IndexOf, CountPairs, Singles, KeyvalAt, CString;
    var i := IndexOf(t, '=');
    KeyvalParts(t, i);
    var k, u := t[..i], t[i + 1..];
    SplitAtIndex(t, i);
    CountOverKey(k, u, m);
    CountOverValue(u, true);
  }

  /** On every buffer the parser stores no more pairs than the counting pass made room for. */
  lemma {:induction false} ParsedAtMostCounted(t: string)
    ensures ParsedPairs(t) + KeySingles(t) <= CountPairs(t, false)
    decreases |t|
  {
    if t != "" && KeyvalAt(t).Good? {
      CountOverPair(t, false);
      ParsedAtMostCounted(KeyvalAt(t).rest);
    }
  }

  /** On a buffer that parses, the surplus is exactly the single semicolons inside keys. */
  lemma {:induction false} CountedExactly(t: string)
    requires PairsOf(t).Some?
    ensures |PairsOf(t).value| == ParsedPairs(t)
    ensures CountPairs(t, false) == ParsedPairs(t) + KeySingles(t)
    decreases |t|
  {
    if t != "" {
      CountOverPair(t, false);
      CountedExactly(KeyvalAt(t).rest);
    }
  }

  /**
   The slots counted are the pairs stored if and only if no key holds a single
   `;`; otherwise the search for a target reads a slot that was never filled,
   unless it finds one before.
   */
  lemma ReportedCountIff(body: string, who: string -> Target)
    requires ParseBody(body, who).Command? || ParseBody(body, who).Unfilled?
    ensures var r := ParseBody(body, who);
            && |r.pairs| <= r.nPairs
            && (|r.pairs| == r.nPairs <==> KeySingles(body) == 0)
            && (r.Unfilled? <==> KeySingles(body) > 0 && !HasKey(r.pairs, "thrid"))
  {
    hide KeyvalAt, Singles, CountPairs, FirstKey;
    CountOverPair(body, false);
    CountedExactly(KeyvalAt(body).rest);
  }

  // ---- Round trip ----------------------------------------------------------

  ghost predicate SpelledKey(k: string) { |k| <= MAX_KEYLEN && '=' !in k && ';' !in k && '\0' !in k }

  ghost predicate CleanKey(k: string) { SpelledKey(k) && k != "thrid" }

  /** Commands that can be told apart from their bytes. */
  ghost predicate WellSpelled(cmd: string, ps: seq<Pair>) {
    && WithinLimits(cmd, ps) && ';' !in cmd
    && forall i | 0 <= i < |ps| :: SpelledKey(ps[i].key)
  }

  /** Commands the protocol is meant for, without a target. */
  ghost predicate WellFormed(cmd: string, ps: seq<Pair>) {
    && WithinLimits(cmd, ps) && ';' !in cmd
    && forall i | 0 <= i < |ps| :: CleanKey(ps[i].key)
  }

  /** One escaped character in front of a text is read as that character. */
  lemma ValueOverChar(c: char, u: string)
    ensures ValueAt((if c == ';' then ";;" else [c]) + u) == Extend([c], if c == ';' then 2 else 1, ValueAt(u))
  {
    var t := (if c == ';' then ";;" else [c]) + u;
    if c == ';' { assert t[2..] == u; } else { assert t[1..] == u; }
  }

  lemma EscapeFirst(v: string)
    requires v != ""
    ensures Escape(v) == (if v[0] == ';' then ";;" else [v[0]]) + Escape(v[1..])
  {
  }

  lemma HeadAndTail(v: string)
    requires v != ""
    ensures v == [v[0]] + v[1..]
  {
  }

  lemma Joins(a: string, b: string, c: string, d: string)
    ensures a + b + c + d == a + (b + c + d)
  {
  }

  lemma {:induction false} ValueRoundTrip(v: string, rest: string)
    requires rest == "" || rest[0] != ';'
    ensures ValueAt(Escape(v) + ";" + rest) == Closed(v, |Escape(v)| + 1)
    decreases |v|
  {
    if v == "" {
      assert Escape(v) + ";" + rest == ";" + rest;
    } else {
      hide ValueAt, Escape;
      var e, r := if v[0] == ';' then ";;" else [v[0]], Escape(v[1..]);
      ValueRoundTrip(v[1..], rest);
      ValueOverChar(v[0], r + ";" + rest);
      EscapeFirst(v);
      HeadAndTail(v);
      Joins(e, r, ";", rest);
    }
  }

  lemma {:induction false} IndexSkips(k: string, c: char, u: string)
    requires c !in k
    ensures IndexOf(k + [c] + u, c) == |k| && IndexOf(k, c) == |k|
  {
    var t := k + [c] + u;
    assert t[|k|] == c && forall j | 0 <= j < |k| :: t[j] == k[j] && t[j] != c;
  }

  lemma KeyvalParts(t: string, i: nat)
    requires i == IndexOf(t, '=')
    ensures i == |t| || i > MAX_KEYLEN ==> KeyvalAt(t) == Bad
    ensures i < |t| && i <= MAX_KEYLEN ==>
              var r := ValueAt(t[i + 1..]);
              KeyvalAt(t) == if r.Open? || |r.text| > MAX_VALLEN then Bad
                             else Good(CString(t[..i]), r.text, t[i + 1..][r.used..], t[..i])
  {
    hide IndexOf, ValueAt;
    if i < |t| && i <= MAX_KEYLEN && ValueAt(t[i + 1..]).Closed? {
      var n := ValueAt(t[i + 1..]).used;
      assert t[i + 1..][n..] == t[i + 1 + n..];
    }
  }

  lemma Slices(k: string, c: char, u: string)
    ensures (k + [c] + u)[..|k|] == k && (k + [c] + u)[|k| + 1..] == u
  {
  }

  lemma PairRoundTrip(k: string, v: string, rest: string)
    requires '=' !in k && '\0' !in k && |k| <= MAX_KEYLEN && |v| <= MAX_VALLEN
    requires rest == "" || rest[0] != ';'
    ensures KeyvalAt(PairText(Pair(k, v)) + rest) == Good(k, v, rest, k)
  {
    hide KeyvalAt, ValueAt, IndexOf, Escape, PairText;
    var e := Escape(v);
    var u := e + [';'] + rest;
    PairTextSplit(k, v, rest);
    IndexSkips(k, '=', u);
    IndexSkips(k, '\0', "");
    ValueRoundTrip(v, rest);
    Slices(k, '=', u);
    Slices(e, ';', rest);
    KeyvalParts(k + ['='] + u, |k|);
    WholeString(k);
  }

  lemma PairTextSplit(k: string, v: string, rest: string)
    ensures PairText(Pair(k, v)) + rest == k + ['='] + (Escape(v) + [';'] + rest)
  {
    hide Escape;
  }

  lemma WholeString(k: string)
    ensures k[..|k|] == k
  {
  }

  lemma {:induction false} PairsRoundTrip(ps: seq<Pair>)
    requires forall i | 0 <= i < |ps| :: SpelledKey(ps[i].key) && |ps[i].value| <= MAX_VALLEN
    ensures PairsText(ps) == "" || PairsText(ps)[0] != ';'
    ensures PairsOf(PairsText(ps)) == Some(ps)
    ensures KeySingles(PairsText(ps)) == 0
    decreases |ps|
  {
    if ps != [] {
      PairsRoundTrip(ps[1..]);
      PairRoundTrip(ps[0].key, ps[0].value, PairsText(ps[1..]));
      NoSingles(ps[0].key);
      assert PairsText(ps)[0] == (ps[0].key + "=")[0];
      assert [ps[0]] + ps[1..] == ps;
    }
  }

  lemma {:induction false} NoSingles(k: string)
    requires ';' !in k
    ensures Singles(k) == 0
  {
    if k != "" { NoSingles(k[1..]); }
  }

  lemma {:induction false} EscapeNone(c: string)
    requires ';' !in c
    ensures Escape(c) == c
  {
    if c != "" { EscapeNone(c[1..]); }
  }

  /** The text of a command parses to its name and pairs, as many slots being counted, and the target decides. */
  lemma BodyReads(cmd: string, ps: seq<Pair>, who: string -> Target)
    requires WellSpelled(cmd, ps)
    ensures ParseBody(Body(cmd, ps), who) == Verdict(cmd, ps, |ps|, who)
  {
    hide Escape, PairsText, KeyvalAt, CountPairs, Singles, PairsOf, Body, Verdict;
    PairsRoundTrip(ps);
    BodyText(cmd, ps);
    PairRoundTrip("cmd", cmd, PairsText(ps));
    NoSingles("cmd");
    CountOverPair(Body(cmd, ps), false);
    CountedExactly(PairsText(ps));
  }

  lemma BodyRoundTrip(cmd: string, ps: seq<Pair>, who: string -> Target)
    requires WellFormed(cmd, ps)
    ensures ParseBody(Body(cmd, ps), who) == Command(cmd, ps, |ps|)
  {
    hide ParseBody, Body;
    BodyReads(cmd, ps, who);
  }

  // ---- Limits on the reader's side -----------------------------------------

  ghost predicate TooLong(p: Pair) { |p.key| > MAX_KEYLEN || |p.value| > MAX_VALLEN }

  lemma PairRejected(k: string, v: string, rest: string)
    requires '=' !in k && TooLong(Pair(k, v)) && (rest == "" || rest[0] != ';')
    ensures KeyvalAt(PairText(Pair(k, v)) + rest) == Bad
  {
    hide KeyvalAt, ValueAt, IndexOf, Escape, PairText;
    var u := Escape(v) + [';'] + rest;
    PairTextSplit(k, v, rest);
    IndexSkips(k, '=', u);
    ValueRoundTrip(v, rest);
    Slices(k, '=', u);
    KeyvalParts(k + ['='] + u, |k|);
  }

  lemma {:induction false} PairsRejected(ps: seq<Pair>, x: nat)
    requires x < |ps| && TooLong(ps[x])
    requires forall i | 0 <= i < |ps| :: '=' !in ps[i].key && ';' !in ps[i].key && '\0' !in ps[i].key
    ensures PairsOf(PairsText(ps)) == None
    decreases |ps|
  {
    hide KeyvalAt, PairText;
    var rest := PairsText(ps[1..]);
    TextStarts(ps[1..]);
    TextStarts(ps);
    if TooLong(ps[0]) {
      PairRejected(ps[0].key, ps[0].value, rest);
    } else {
      PairRoundTrip(ps[0].key, ps[0].value, rest);
      PairsRejected(ps[1..], x - 1);
    }
  }

  lemma TextStarts(ps: seq<Pair>)
    requires forall i | 0 <= i < |ps| :: ';' !in ps[i].key
    ensures ps != [] ==> PairsText(ps) != "" && PairsText(ps)[0] != ';'
    ensures ps == [] ==> PairsText(ps) == ""
  {
    if ps != [] { assert PairsText(ps)[0] == (ps[0].key + "=")[0]; }
  }

  /** A body that is spelled properly and has a name, key or value beyond its limit is rejected. */
  lemma TooLongRejected(cmd: string, ps: seq<Pair>, who: string -> Target)
    requires ';' !in cmd && forall i | 0 <= i < |ps| :: '=' !in ps[i].key && ';' !in ps[i].key && '\0' !in ps[i].key
    requires |cmd| > MAX_VALLEN || exists x | 0 <= x < |ps| :: TooLong(ps[x])
    ensures ParseBody(Body(cmd, ps), who) == BadKeyval
  {
    hide PairsText, KeyvalAt, PairsOf, Body, Escape;
    var rest := PairsText(ps);
    BodyText(cmd, ps);
    TextStarts(ps);
    if |cmd| > MAX_VALLEN {
      PairRejected("cmd", cmd, rest);
    } else {
      PairRoundTrip("cmd", cmd, rest);
      var x :| 0 <= x < |ps| && TooLong(ps[x]);
      PairsRejected(ps, x);
    }
  }

  /** The pair's text and nothing after it. */
  lemma OnePairText(p: Pair)
    ensures PairsText([p]) == PairText(p) + ""
  {
    hide PairText;
    assert [p][1..] == [];
  }

  lemma OnePairParsed(t: string, p: Pair)
    requires t != "" && KeyvalAt(t) == Good(p.key, p.value, "", p.key)
    ensures PairsOf(t) == Some([p]) && ParsedPairs(t) == 1 && KeySingles(t) == Singles(p.key)
  {
    hide KeyvalAt, Singles;
    assert [Pair(p.key, p.value)] + [] == [p];
  }

  lemma SinglesOfSurplus()
    ensures Singles("a;b") == 1
  {
    assert "a;b"[1..] == ";b" && ";b"[1..] == "b" && "b"[1..] == "";
  }

  /** A command the writer sends, with a single `;` in a key: one pair is stored and two are counted. */
  lemma SurplusSlot(who: string -> Target)
    ensures Status("x", [Pair("a;b", "c")]) == Sent
    ensures ParseBody(Body("x", [Pair("a;b", "c")]), who) == Unfilled([Pair("a;b", "c")], 2)
  {
    var p, q := Pair("a;b", "c"), Pair("cmd", "x");
    SurplusSent();
    SurplusTarget();
    hide FirstKey, KeyvalAt, PairsOf, PairText, PairsText, CountPairs, KeySingles, ParsedPairs, Status, Escape, Body;
    var t := PairText(p) + "";
    OnePairText(p);
    PairRoundTrip("a;b", "c", "");
    PairTextStart(p);
    BodyText("x", [p]);
    PairRoundTrip("cmd", "x", t);
    OnePairParsed(t, p);
    SinglesOfSurplus();
    CountedExactly(t);
    CountOverPair(Body("x", [p]), false);
    NoSingles("cmd");
  }

  lemma SurplusTarget()
    ensures FirstKey([Pair("a;b", "c")], "thrid") == 1
  {
    hide FirstKey;
    assert "a;b" != "thrid";
  }

  lemma SurplusSent()
    ensures Status("x", [Pair("a;b", "c")]) == Sent
  {
    var ps := [Pair("a;b", "c")];
    EscapeNone("c");
    OnePairText(ps[0]);
    SentIffWithinLimits("x", ps);
  }

  lemma PairTextStart(p: Pair)
    requires p.key != ""
    ensures PairText(p) + "" != "" && (PairText(p) + "")[0] == p.key[0]
  {
    hide Escape;
    assert PairText(p)[0] == (p.key + "=")[0];
  }

  /** The command name is written like a pair. */
  lemma BodyText(cmd: string, ps: seq<Pair>)
    requires ';' !in cmd
    ensures Body(cmd, ps) == PairText(Pair("cmd", cmd)) + PairsText(ps)
  {
    hide Escape, PairsText;
    EscapeNone(cmd);
  }

  /** One frame, read from a stream that continues with anything. */
  lemma FrameRoundTrip(cmd: string, ps: seq<Pair>, rest: string, who: string -> Target)
    requires WellFormed(cmd, ps)
    ensures ReadOne(Frame(cmd, ps) + rest, who) == (Command(cmd, ps, |ps|), rest)
  {
    BodyRoundTrip(cmd, ps, who);
    HeaderRead(Body(cmd, ps), rest, who);
  }

  /** The header gives the length, and exactly so many bytes are the body. */
  lemma HeaderRead(body: string, rest: string, who: string -> Target)
    requires 0 < |body| < MAX_COMMAND_LEN
    ensures |Numeral(|body|)| <= COMMANDLEN_SIZE
    ensures ReadOne(Header(|body|) + body + rest, who) == (ParseBody(body, who), rest)
  {
    hide Numeral, ParseBody, Atoi;
    BodyLengthFits(|body|);
    AtoiNumeral(|body|, Spaces(COMMANDLEN_SIZE - |Numeral(|body|)|));
    var h := Header(|body|);
    var s := h + body + rest;
    assert s[..COMMANDLEN_SIZE] == h;
    assert s[COMMANDLEN_SIZE..] == body + rest;
    assert (body + rest)[..|body|] == body && (body + rest)[|body|..] == rest;
  }

  /** A header that asks for a negative number of bytes is told apart. */
  lemma NegativeHeader(n: nat, rest: string, who: string -> Target)
    requires n > 0 && |Numeral(n)| < COMMANDLEN_SIZE
    ensures var pad := Spaces(COMMANDLEN_SIZE - 1 - |Numeral(n)|);
            ReadOne("-" + Numeral(n) + pad + rest, who) == (NegativeLength, rest)
  {
    hide Numeral, ParseBody, Atoi;
    var h := "-" + Numeral(n) + Spaces(COMMANDLEN_SIZE - 1 - |Numeral(n)|);
    AtoiNegative(n, Spaces(COMMANDLEN_SIZE - 1 - |Numeral(n)|));
    assert (h + rest)[..COMMANDLEN_SIZE] == h && (h + rest)[COMMANDLEN_SIZE..] == rest;
  }

  /** A stream that ends inside a frame fails, wherever it ends, and nothing is left of it. */
  lemma CutFrameFails(cmd: string, ps: seq<Pair>, k: nat, who: string -> Target)
    requires |Body(cmd, ps)| < MAX_COMMAND_LEN && k < |Frame(cmd, ps)|
    ensures ReadOne(Frame(cmd, ps)[..k], who) == (ReadFailed, "")
  {
    var body := Body(cmd, ps);
    assert |body| > 0;
    hide Numeral, ParseBody, Atoi, Body;
    BodyLengthFits(|body|);
    AtoiNumeral(|body|, Spaces(COMMANDLEN_SIZE - |Numeral(|body|)|));
    var h, s := Header(|body|), Frame(cmd, ps)[..k];
    if k >= COMMANDLEN_SIZE { assert s[..COMMANDLEN_SIZE] == h && |s[COMMANDLEN_SIZE..]| < |body|; }
  }

  /** A well-formed command is for the reader, so one call returns it. */
  lemma CallRoundTrip(cmd: string, ps: seq<Pair>, rest: string, who: string -> Target)
    requires WellFormed(cmd, ps)
    ensures ReadMine(Frame(cmd, ps) + rest, who) == (Command(cmd, ps, |ps|), rest)
  {
    hide Frame, ReadOne;
    FrameRoundTrip(cmd, ps, rest, who);
  }

  // ---- Commands with a target ----------------------------------------------

  /** Pair i is the first that names a target. */
  ghost predicate TargetAt(ps: seq<Pair>, i: nat) {
    i < |ps| && ps[i].key == "thrid" && forall k | 0 <= k < i :: ps[k].key != "thrid"
  }

  /** A command with a target is the caller's, another's or nobody's, as the text of the target names it. */
  lemma TargetDecides(cmd: string, ps: seq<Pair>, i: nat, rest: string, who: string -> Target)
    requires WellSpelled(cmd, ps) && TargetAt(ps, i)
    ensures ReadOne(Frame(cmd, ps) + rest, who)
            == (if ps[i].value == "" || who(ps[i].value) == Garbled then BadTarget
                else if who(ps[i].value) == Another then OtherTarget
                else Command(cmd, ps, |ps|), rest)
  {
    assert |Body(cmd, ps)| > 0;
    hide ParseBody, Body, FirstKey;
    BodyReads(cmd, ps, who);
    HeaderRead(Body(cmd, ps), rest, who);
    assert FirstKey(ps, "thrid") == i;
  }

  /** One call passes over commands for others and ends at the first that is not: it returns that one, or its error. */
  lemma OthersPassedOver(cmd: string, ps: seq<Pair>, i: nat, rest: string, who: string -> Target)
    requires WellSpelled(cmd, ps) && TargetAt(ps, i)
    ensures var v := ps[i].value;
            ReadMine(Frame(cmd, ps) + rest, who)
            == if v == "" || who(v) == Garbled then (BadTarget, rest)
               else if who(v) == Another then ReadMine(rest, who)
               else (Command(cmd, ps, |ps|), rest)
  {
    hide Frame, ReadOne;
    TargetDecides(cmd, ps, i, rest, who);
  }

  datatype Cmd = Cmd(name: string, pairs: seq<Pair>)

  ghost predicate AllWellFormed(cs: seq<Cmd>) {
    forall i | 0 <= i < |cs| :: WellFormed(cs[i].name, cs[i].pairs)
  }

  /** The commands' frames, one after another. */
  ghost function Stream(cs: seq<Cmd>): string
    requires AllWellFormed(cs)
  {
    if cs == [] then "" else Frame(cs[0].name, cs[0].pairs) + Stream(cs[1..])
  }

  /** The results of n calls of the reader. */
  function ReadMany(s: string, n: nat, who: string -> Target): (seq<ReadResult>, string)
    decreases n
  {
    if n == 0 then ([], s)
    else
      var (r, t) := ReadMine(s, who);
      var (rs, u) := ReadMany(t, n - 1, who);
      ([r] + rs, u)
  }

  function Received(c: Cmd): ReadResult { Command(c.name, c.pairs, |c.pairs|) }

  ghost predicate AllReceived(rs: seq<ReadResult>, cs: seq<Cmd>) {
    |rs| == |cs| && forall i | 0 <= i < |cs| :: rs[i] == Received(cs[i])
  }

  /** Any list of well-formed commands comes back, in order, and nothing else is consumed. */
  lemma {:induction false} StreamRoundTrip(cs: seq<Cmd>, rest: string, who: string -> Target)
    requires AllWellFormed(cs)
    ensures var (rs, left) := ReadMany(Stream(cs) + rest, |cs|, who);
            left == rest && AllReceived(rs, cs)
    decreases |cs|
  {
    hide *;
    if cs == [] {
      StreamNone(cs, rest, who);
    } else {
      StreamFirst(cs, rest);
      var t := Stream(cs[1..]) + rest;
      StreamRoundTrip(cs[1..], rest, who);
      CallRoundTrip(cs[0].name, cs[0].pairs, t, who);
      ReceivedFirst(cs, ReadMany(t, |cs| - 1, who).0);
      ReadManyFirst(Stream(cs) + rest, |cs|, who, Received(cs[0]), t);
    }
  }

  lemma StreamNone(cs: seq<Cmd>, rest: string, who: string -> Target)
    requires cs == []
    ensures AllWellFormed(cs) && ReadMany(Stream(cs) + rest, |cs|, who) == ([], rest) && AllReceived([], cs)
  {
    hide ReadMine;
    assert Stream(cs) + rest == rest;
  }

  lemma ReceivedFirst(cs: seq<Cmd>, rs: seq<ReadResult>)
    requires cs != [] && AllReceived(rs, cs[1..])
    ensures AllReceived([Received(cs[0])] + rs, cs) && Received(cs[0]) == Command(cs[0].name, cs[0].pairs, |cs[0].pairs|)
  {
    assert forall i | 0 < i < |cs| :: cs[i] == cs[1..][i - 1];
  }

  lemma StreamFirst(cs: seq<Cmd>, rest: string)
    requires AllWellFormed(cs) && cs != []
    ensures WellFormed(cs[0].name, cs[0].pairs) && AllWellFormed(cs[1..])
    ensures Stream(cs) + rest == Frame(cs[0].name, cs[0].pairs) + (Stream(cs[1..]) + rest)
  {
    hide Frame;
    Regrouped(Frame(cs[0].name, cs[0].pairs), Stream(cs[1..]), rest);
  }

  lemma Regrouped(a: string, b: string, c: string)
    ensures a + b + c == a + (b + c)
  {
  }

  lemma ReadManyFirst(s: string, n: nat, who: string -> Target, r: ReadResult, t: string)
    requires n > 0 && ReadMine(s, who) == (r, t)
    ensures ReadMany(s, n, who) == ([r] + ReadMany(t, n - 1, who).0, ReadMany(t, n - 1, who).1)
  {
    hide ReadMine;
  }

  // ---- The name of a command -----------------------------------------------

  /**
   The check of a reply's name: |exp| bytes of memory from the name on against
   the expected name, which holds no NUL.
   */
  predicate NameMatches(memory: string, exp: string) { exp <= memory }

  /** Whatever follows the copied name in memory, the check comes out the same. */
  ghost predicate DecidedByName(name: string, exp: string) {
    forall t: string, u: string | |t| == |exp| == |u| :: NameMatches(name + t, exp) == NameMatches(name + u, exp)
  }

  /**
   The name is copied without a terminating NUL, so the check may read on behind
   it.  It is decided by the name alone if and only if the name is not a proper
   prefix of the expected one; with a NUL it always would be.
   */
  lemma NameCheckIff(name: string, exp: string)
    requires '\0' !in exp
    ensures DecidedByName(name, exp) <==> !(name < exp)
    ensures !(name < exp) ==> forall t: string :: NameMatches(name + t, exp) <==> exp <= name
    ensures forall t: string :: NameMatches(name + "\0" + t, exp) <==> exp <= name
  {
    if name < exp {
      var n := |exp|;
      var t, u := exp[|name|..] + seq(|name|, i => 'x'), seq(n, i => '\0');
      assert exp == name + exp[|name|..];
      assert name + t == exp + seq(|name|, i => 'x');
      assert (name + u)[|name|] == '\0';
      assert NameMatches(name + t, exp) && !NameMatches(name + u, exp);
    } else {
      forall t: string ensures NameMatches(name + t, exp) <==> exp <= name { PrefixOrNot(name, t, exp); }
    }
    forall t: string ensures NameMatches(name + "\0" + t, exp) <==> exp <= name {
      NulStops(name, t, exp);
    }
  }

  lemma PrefixOrNot(name: string, t: string, exp: string)
    requires !(name < exp)
    ensures exp <= name + t <==> exp <= name
  {
  }

  lemma NulStops(name: string, t: string, exp: string)
    requires '\0' !in exp
    ensures exp <= name + "\0" + t <==> exp <= name
  {
    var m := name + "\0" + t;
    assert m[|name|] == '\0' && m[..|name|] == name;
  }
}
