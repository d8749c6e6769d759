/**
 The writer and the reader of contribs/pmi2/pmi2_api.c as they run: cursors over
 a fixed buffer, unescaping in place, and a descriptor whose reads and writes
 may move fewer bytes than asked for.  Each is proved equal to its function in
 Pmi2Wire whatever the descriptor does.
 */
module Pmi2Codec {
  import opened Decimal
  import opened Pmi2Wire

  /** A connected descriptor: the bytes written and not yet read, and whether calls on it may fail. */
  class Pipe {
    var bytes: string
    const faulty: bool

    constructor (faulty: bool)
      ensures bytes == "" && this.faulty == faulty
    {
      this.faulty := faulty;
      bytes := "";
    }

    /** `read`: -1 on an error; else any nonempty part of what is there, up to n bytes, and nothing at end of file. */
    method Read(n: nat) returns (nbytes: int, chunk: string)
      modifies this
      ensures old(bytes) == chunk + bytes && |chunk| <= n
      ensures if nbytes == -1 then faulty && chunk == "" else nbytes == |chunk|
      ensures nbytes != -1 && n > 0 && old(bytes) != "" ==> chunk != ""
    {
      var fails := *;
      if faulty && fails { return -1, ""; }
      var most := if n < |bytes| then n else |bytes|;
      chunk := "";
      if most > 0 {
        var k :| 1 <= k <= most;
        chunk, bytes := bytes[..k], bytes[k..];
      }
      nbytes := |chunk|;
    }

    /** `write`: accepts any nonempty prefix of the data, or fails. */
    method Write(data: string) returns (nbytes: int)
      requires data != ""
      modifies this
      ensures nbytes <= |data| && (nbytes <= 0 ==> faulty)
      ensures bytes == old(bytes) + data[..if nbytes <= 0 then 0 else nbytes]
    {
      var fails := *;
      if faulty && fails { return -1; }
      nbytes :| 1 <= nbytes <= |data|;
      bytes := bytes + data[..nbytes];
    }
  }

  /** What is left of s after reading some of it. */
  ghost predicate IsRest(s: string, t: string) { |t| <= |s| && s[|s| - |t|..] == t }

  // ---- Writer --------------------------------------------------------------

  lemma EscapeNothing(v: string)
    ensures Escape(v[..0]) == ""
  {
  }

  lemma {:induction false} EscapeJoin(v: string, w: string)
    ensures Escape(v + w) == Escape(v) + Escape(w)
  {
    if v == "" {
      assert v + w == w;
    } else {
      hide Escape;
      EscapeJoin(v[1..], w);
      EscapeFirst(v);
      EscapeFirst(v + w);
      FrontOf(v, w);
      Joins(if v[0] == ';' then ";;" else [v[0]], Escape(v[1..]), Escape(w), "");
      NothingAfter(Escape(v) + Escape(w));
      NothingAfter(Escape(v[1..]) + Escape(w));
    }
  }

  lemma FrontOf(v: string, w: string)
    requires v != ""
    ensures v + w != "" && (v + w)[0] == v[0] && (v + w)[1..] == v[1..] + w
  {
  }

  lemma NothingAfter(v: string)
    ensures v + "" == v
  {
  }

  lemma EscapeSplit(v: string, i: nat)
    requires i <= |v|
    ensures Escape(v) == Escape(v[..i]) + Escape(v[i..])
  {
    hide Escape;
    EscapeJoin(v[..i], v[i..]);
    assert v == v[..i] + v[i..];
  }

  lemma EscapeSnoc(v: string, i: nat)
    requires i < |v|
    ensures Escape(v[..i + 1]) == Escape(v[..i]) + if v[i] == ';' then ";;" else [v[i]]
  {
    EscapeOne(v[i]);
    hide Escape;
    EscapeJoin(v[..i], [v[i]]);
    assert v[..i + 1] == v[..i] + [v[i]];
  }

  lemma EscapeOne(c: char)
    ensures Escape([c]) == if c == ';' then ";;" else [c]
  {
    assert [c][1..] == "";
  }

  /** Copies text into the buffer at c and touches nothing else. */
  method PutText(buf: array<char>, c: nat, text: string)
    requires c + |text| <= buf.Length
    modifies buf
    ensures buf[..c + |text|] == old(buf[..c]) + text
    ensures buf[c + |text|..] == old(buf[c + |text|..])
  {
    var i := 0;
    while i < |text|
      invariant 0 <= i <= |text|
      invariant forall k | 0 <= k < buf.Length :: buf[k] == if c <= k < c + i then text[k - c] else old(buf[k])
    {
      buf[c + i] := text[i];
      i := i + 1;
    }
  }

  /** One character at c, if there is room. */
  method PutChar(buf: array<char>, c: nat, ch: char) returns (ok: bool)
    requires c <= buf.Length
    modifies buf
    ensures ok <==> c < buf.Length
    ensures buf[..c] == old(buf[..c]) && (ok ==> buf[..c + 1] == old(buf[..c]) + [ch])
  {
    ok := c < buf.Length;
    if ok { buf[c] := ch; }
  }

  /** A character of a value, doubled if it is a semicolon. */
  method PutEscaped(buf: array<char>, c0: nat, ch: char) returns (ok: bool, c: nat)
    requires c0 <= buf.Length
    modifies buf
    ensures var e := if ch == ';' then ";;" else [ch];
            (ok <==> c0 + |e| <= buf.Length) && (ok ==> c == c0 + |e| && buf[..c] == old(buf[..c0]) + e)
  {
    c := c0;
    if ch == ';' {
      ok := PutChar(buf, c, ';');
      if !ok { return; }
      c := c + 1;
    }
    ok := PutChar(buf, c, ch);
    c := c + 1;
  }

  /** The value loop: no room check in the source, so running past the buffer is reported. */
  method PutValue(buf: array<char>, c0: nat, value: string) returns (ok: bool, c: nat)
    requires c0 <= buf.Length
    modifies buf
    ensures ok <==> c0 + |Escape(value)| + 1 <= buf.Length
    ensures ok ==> c == c0 + |Escape(value)| + 1
    ensures ok ==> buf[..c] == old(buf[..c0]) + Escape(value) + ";"
  {
    hide Escape;
    ghost var before := buf[..c0];
    c := c0;
    var i := 0;
    EscapeNothing(value);
    while i < |value|
      invariant 0 <= i <= |value|
      invariant c == c0 + |Escape(value[..i])| <= buf.Length
      invariant buf[..c] == before + Escape(value[..i])
    {
      EscapeSplit(value, i + 1);
      EscapeSnoc(value, i);
      ok, c := PutEscaped(buf, c, value[i]);
      if !ok { return; }
      i := i + 1;
    }
    assert value[..i] == value;
    ok := PutChar(buf, c, ';');
    c := c + 1;
  }

  method PutPair(buf: array<char>, c0: nat, p: Pair) returns (st: WriteStatus, c: nat)
    requires buf.Length == MAX_COMMAND_LEN && c0 <= buf.Length
    modifies buf
    ensures st == PairStatus(c0, p)
    ensures st == Sent ==> c == c0 + |PairText(p)| <= buf.Length && buf[..c] == old(buf[..c0]) + PairText(p)
  {
    hide Escape;
    c := c0;
    if |p.key| > MAX_KEYLEN { return KeyTooLong, c; }
    var remaining := MAX_COMMAND_LEN - c;
    var ret := |p.key| + 1;
    if ret >= remaining { return NoRoom, c; }
    PutText(buf, c, p.key + "=");
    c := c + ret;
    if |p.value| > MAX_VALLEN { return ValTooLong, c; }
    var ok;
    ok, c := PutValue(buf, c, p.value);
    st := if ok then Sent else Overrun;
  }

  /** Fills the buffer from c0 on with the pairs. */
  method PutPairs(buf: array<char>, c0: nat, ps: seq<Pair>) returns (st: WriteStatus, c: nat)
    requires buf.Length == MAX_COMMAND_LEN && c0 <= buf.Length
    modifies buf
    ensures st == PairsStatus(c0, ps)
    ensures st == Sent ==> c == c0 + |PairsText(ps)| < buf.Length && buf[..c] == old(buf[..c0]) + PairsText(ps)
  {
    hide PairText, PairStatus;
    c := c0;
    var i := 0;
    while i < |ps|
      invariant 0 <= i <= |ps| && c == c0 + |PairsText(ps[..i])| <= buf.Length
      invariant PairsStatus(c, ps[i..]) == PairsStatus(c0, ps)
      invariant buf[..c] == old(buf[..c0]) + PairsText(ps[..i])
    {
      assert ps[i..][1..] == ps[i + 1..];
      PairsTextSnoc(ps, i);
      st, c := PutPair(buf, c, ps[i]);
      if st != Sent { return; }
      i := i + 1;
    }
    assert ps[..i] == ps && ps[i..] == [];
    st := if c < buf.Length then Sent else Overrun;
  }

  lemma {:induction false} PairsTextSnoc(ps: seq<Pair>, i: nat)
    requires i < |ps|
    ensures PairsText(ps[..i + 1]) == PairsText(ps[..i]) + PairText(ps[i])
    ensures PairsText(ps[i..]) == PairText(ps[i]) + PairsText(ps[i + 1..])
    decreases i
  {
    hide PairText;
    assert ps[i..][1..] == ps[i + 1..];
    if i == 0 {
      assert ps[..1][1..] == [] && ps[..0] == [];
    } else {
      PairsTextSnoc(ps[1..], i - 1);
      assert ps[..i + 1][1..] == ps[1..][..i] && ps[..i][1..] == ps[1..][..i - 1];
    }
  }

  lemma StatusOf(cmd: string, ps: seq<Pair>)
    ensures Status(cmd, ps) == if |cmd| > MAX_VALLEN then CmdTooLong else PairsStatus(COMMANDLEN_SIZE + |cmd| + 5, ps)
  {
  }

  /** What a failed write loop leaves behind: the frame cut short. */
  ghost predicate CutShort(before: string, frame: string, after: string) {
    exists k | 0 <= k < |frame| :: after == before + frame[..k]
  }

  /**
   PMIi_WriteSimpleCommand.  The room check after "cmd=...;" and the check that
   the length fits its field cannot fail and are not repeated here.
   */
  method WriteSimpleCommand(fd: Pipe, cmd: string, ps: seq<Pair>) returns (st: WriteStatus)
    modifies fd
    ensures Status(cmd, ps) == Sent <==> WithinLimits(cmd, ps)
    ensures st == Status(cmd, ps) || (st == WriteFailed && fd.faulty && Status(cmd, ps) == Sent)
    ensures Status(cmd, ps) == Sent ==> |Body(cmd, ps)| < MAX_COMMAND_LEN
    ensures st == Sent ==> fd.bytes == old(fd.bytes) + Frame(cmd, ps)
    ensures st == WriteFailed ==> CutShort(old(fd.bytes), Frame(cmd, ps), fd.bytes)
    ensures st != Sent && st != WriteFailed ==> fd.bytes == old(fd.bytes)
  {
    hide PairsStatus, PairsText, Numeral, Status, WithinLimits;
    SentIffWithinLimits(cmd, ps);
    StatusOf(cmd, ps);
    LimitsBoundBody(cmd, ps);
    if |cmd| > MAX_VALLEN { return CmdTooLong; }
    var buf, c;
    buf, st, c := FillFrame(cmd, ps);
    if st != Sent { return; }
    ghost var frame := buf[..c];
    var ok := WriteAll(fd, buf, c);
    if !ok { st := WriteFailed; }
  }

  lemma LimitsBoundBody(cmd: string, ps: seq<Pair>)
    ensures WithinLimits(cmd, ps) ==> |Body(cmd, ps)| < MAX_COMMAND_LEN
  {
  }

  /** The buffer with the whole frame, NUL-terminated, or why there is none. */
  method FillFrame(cmd: string, ps: seq<Pair>) returns (buf: array<char>, st: WriteStatus, c: nat)
    requires |cmd| <= MAX_VALLEN
    ensures fresh(buf) && st == PairsStatus(COMMANDLEN_SIZE + |cmd| + 5, ps)
    ensures st == Sent ==>
              && c < buf.Length && 0 < c && |Body(cmd, ps)| < MAX_COMMAND_LEN && buf[..c] == Frame(cmd, ps)
  {
    hide PairsStatus, PairsText, Numeral;
    buf := new char[MAX_COMMAND_LEN](i => ' ');
    c := COMMANDLEN_SIZE;
    var text := "cmd=" + cmd + ";";
    assert buf[..c] == Spaces(COMMANDLEN_SIZE);
    PutText(buf, c, text);
    c := c + |text|;
    st, c := PutPairs(buf, c, ps);
    if st != Sent { return; }
    assert Spaces(COMMANDLEN_SIZE) + text + PairsText(ps) == Spaces(COMMANDLEN_SIZE) + Body(cmd, ps);
    var cmdlen := c - COMMANDLEN_SIZE;
    BodyLengthFits(cmdlen);
    Patch(buf, c, cmdlen, Body(cmd, ps));
    ghost var frame := buf[..c];
    buf[c] := '\0';
    assert buf[..c] == frame;
  }

  /** The write loop: everything goes out, however little each `write` takes, unless one fails. */
  method WriteAll(fd: Pipe, buf: array<char>, n: nat) returns (ok: bool)
    requires 0 < n <= buf.Length
    modifies fd
    ensures !ok ==> fd.faulty
    ensures ok ==> fd.bytes == old(fd.bytes) + buf[..n]
    ensures !ok ==> CutShort(old(fd.bytes), buf[..n], fd.bytes)
  {
    var offset := 0;
    while offset < n
      invariant 0 <= offset <= n
      invariant fd.bytes == old(fd.bytes) + buf[..offset]
    {
      var nbytes := fd.Write(buf[offset..n]);
      if nbytes <= 0 {
        assert buf[..n][..offset] == buf[..offset];
        return false;
      }
      assert buf[..offset] + buf[offset..n][..nbytes] == buf[..offset + nbytes];
      offset := offset + nbytes;
    }
    ok := true;
  }

  /** Prepends the decimal length over the leading spaces. */
  method Patch(buf: array<char>, c: nat, cmdlen: nat, ghost body: string)
    requires COMMANDLEN_SIZE <= c <= buf.Length && |Numeral(cmdlen)| < COMMANDLEN_SIZE
    requires buf[..c] == Spaces(COMMANDLEN_SIZE) + body
    modifies buf
    ensures buf[..c] == Header(cmdlen) + body
  {
    hide Numeral;
    var digits := Numeral(cmdlen);
    ghost var before := buf[..];
    PutText(buf, 0, digits);
    forall k | 0 <= k < c ensures buf[k] == (Header(cmdlen) + body)[k] {
      assert before[k] == (Spaces(COMMANDLEN_SIZE) + body)[k];
      if k < |digits| {
        assert buf[..|digits|][k] == digits[k];
      } else {
        assert buf[|digits|..][k - |digits|] == before[k];
      }
    }
  }

  // ---- Reader --------------------------------------------------------------

  /** One `read` into the buffer behind the bytes that are there. */
  method ReadChunk(fd: Pipe, buf: array<char>, offset: nat, n: nat) returns (nbytes: int, ghost chunk: string)
    requires offset <= n <= buf.Length
    modifies fd, buf
    ensures old(fd.bytes) == chunk + fd.bytes && offset + |chunk| <= n
    ensures buf[..offset + |chunk|] == old(buf[..offset]) + chunk && buf[n..] == old(buf[n..])
    ensures nbytes <= 0 ==> chunk == ""
    ensures nbytes > 0 ==> nbytes == |chunk|
    ensures nbytes <= 0 && !fd.faulty ==> offset == n || fd.bytes == ""
  {
    var data;
    nbytes, data := fd.Read(n - offset);
    chunk := data;
    ghost var far := buf[offset + |data|..];
    ghost var tail := buf[n..];
    PutText(buf, offset, data);
    assert far[n - offset - |data|..] == tail;
    assert buf[offset + |data|..][n - offset - |data|..] == buf[n..];
  }

  /** After `done`, then `chunk`, comes the rest. */
  lemma TakenSoFar(s: string, done: string, chunk: string, rest: string)
    requires s == done + (chunk + rest)
    ensures s == done + chunk + rest && s[..|done + chunk|] == done + chunk && s[|done + chunk|..] == rest
  {
  }

  /** The do-while read loop: n bytes, or failure at end of file or on an error. */
  method ReadFully(fd: Pipe, buf: array<char>, n: nat) returns (ok: bool)
    requires n <= buf.Length
    modifies fd, buf
    ensures IsRest(old(fd.bytes), fd.bytes)
    ensures ok ==> 0 < n <= |old(fd.bytes)|
    ensures ok ==> buf[..n] == old(fd.bytes)[..n] && fd.bytes == old(fd.bytes)[n..] && buf[n..] == old(buf[n..])
    ensures !ok && !fd.faulty ==>
              !(0 < n <= |old(fd.bytes)|) && fd.bytes == if n == 0 then old(fd.bytes) else ""
  {
    var offset := 0;
    ok := false;
    ghost var s, tail, done := fd.bytes, buf[n..], "";
    while true
      invariant 0 <= offset <= n && (offset == n ==> n == 0)
      invariant |done| == offset && buf[..offset] == done && s == done + fd.bytes
      invariant buf[n..] == tail
      decreases n - offset
    {
      ghost var left, chunk := fd.bytes, "";
      var nbytes;
      nbytes, chunk := ReadChunk(fd, buf, offset, n);
      TakenSoFar(s, done, chunk, fd.bytes);
      if nbytes <= 0 { return; }
      done := done + chunk;
      offset := offset + nbytes;
      if offset >= n { break; }
    }
    ok := true;
  }

  /** The counting pass over a NUL-terminated buffer. */
  method CountPass(buf: array<char>, cmdLen: nat) returns (numPairs: nat)
    requires buf.Length == cmdLen + 1 && buf[cmdLen] == '\0'
    ensures numPairs == CountPairs(buf[..cmdLen], false)
  {
    ghost var body := buf[..cmdLen];
    var c, remaining := 0, cmdLen as int;
    numPairs := 0;
    while remaining > 0
      invariant 0 <= c <= cmdLen + 1 && remaining == cmdLen - c
      invariant c <= cmdLen ==> numPairs + CountPairs(body[c..], false) == CountPairs(body, false)
      invariant c > cmdLen ==> numPairs == CountPairs(body, false)
    {
      ghost var start := c;
      while remaining != 0 && buf[c] != ';'
        invariant start <= c <= cmdLen && remaining == cmdLen - c
        invariant numPairs + CountPairs(body[c..], c > start) == CountPairs(body, false)
      {
        assert body[c..][1..] == body[c + 1..];
        c, remaining := c + 1, remaining - 1;
      }
      if c < cmdLen {
        assert body[c..][1..] == body[c + 1..];
        if c + 1 < cmdLen { assert body[c..][2..] == body[c + 2..]; }
      }
      if buf[c] == ';' && buf[c + 1] == ';' {
        c, remaining := c + 2, remaining - 2;
      } else {
        numPairs := numPairs + 1;
        c, remaining := c + 1, remaining - 1;
      }
    }
  }

  lemma ValueStart(t: string)
    ensures Extend("", 0, ValueAt(t)) == ValueAt(t)
  {
    if ValueAt(t).Closed? { assert "" + ValueAt(t).text == ValueAt(t).text; }
  }

  lemma ExtendEnds(w: string, n: nat)
    ensures Extend(w, n, Open) == Open && Extend(w, n, Closed("", 1)) == Closed(w, n + 1)
  {
    assert w + "" == w;
  }

  lemma ValueCases(u: string)
    ensures ValueAt(u) == if u == "" then Open
                          else if u[0] != ';' then Extend([u[0]], 1, ValueAt(u[1..]))
                          else if |u| > 1 && u[1] == ';' then Extend(";", 2, ValueAt(u[2..]))
                          else Closed("", 1)
  {
  }

  lemma TailAt(s: string, c: nat, end: nat, k: nat)
    requires c + k <= end <= |s|
    ensures s[c..end][k..] == s[c + k..end]
  {
  }

  lemma ExtendTwice(v: string, n: nat, w: string, m: nat, r: Scan)
    ensures Extend(v, n, Extend(w, m, r)) == Extend(v + w, n + m, r)
  {
    if r.Closed? { assert v + (w + r.text) == v + w + r.text; }
  }

  /** The value of t is w, taken from its first n characters, and then that of the unread u. */
  ghost predicate ScanSoFar(t: string, w: string, n: nat, u: string) { ValueAt(t) == Extend(w, n, ValueAt(u)) }

  lemma ScanStart(t: string)
    ensures ScanSoFar(t, "", 0, t)
  {
    hide ValueAt;
    ValueStart(t);
  }

  lemma ScanStep(t: string, w: string, n: nat, u: string)
    requires ScanSoFar(t, w, n, u) && u != ""
    ensures u[0] != ';' ==> ScanSoFar(t, w + [u[0]], n + 1, u[1..])
    ensures u[0] == ';' && |u| > 1 && u[1] == ';' ==> ScanSoFar(t, w + ";", n + 2, u[2..])
    ensures u[0] == ';' && !(|u| > 1 && u[1] == ';') ==> ValueAt(t) == Closed(w, n + 1)
  {
    hide ValueAt, Extend;
    ValueCases(u);
    ExtendEnds(w, n);
    ExtendTwice(w, n, [u[0]], 1, ValueAt(u[1..]));
    if |u| > 1 { ExtendTwice(w, n, ";", 2, ValueAt(u[2..])); }
  }

  lemma ScanEnd(t: string, w: string, n: nat)
    requires ScanSoFar(t, w, n, "")
    ensures ValueAt(t).Open?
  {
    ValueCases("");
    hide ValueAt;
  }

  /** Unescapes a value in place: the write cursor d trails the read cursor c, so unread bytes are never touched. */
  method ParseValue(buf: array<char>, start: nat, len0: nat) returns (found: bool, d: nat, c: nat)
    requires start + len0 + 1 == buf.Length && buf[buf.Length - 1] == '\0'
    modifies buf
    ensures found <==> ValueAt(old(buf[start..start + len0])).Closed?
    ensures found ==> start <= d <= c < start + len0
    ensures found ==> ValueAt(old(buf[start..start + len0])) == Closed(buf[start..d], c + 1 - start)
    ensures found ==> forall k | c <= k < buf.Length :: buf[k] == old(buf[k])
  {
    hide ValueAt, ScanSoFar;
    ghost var s, w := buf[..], "";
    ghost var end := start + len0;
    ghost var t := s[start..end];
    var len := len0;
    d, c := start, start;
    ScanStart(t);
    while len != 0
      invariant start <= d <= c <= end && len == end - c
      invariant forall k | c <= k < buf.Length :: buf[k] == s[k]
      invariant |w| == d - start && forall k | 0 <= k < |w| :: buf[start + k] == w[k]
      invariant ScanSoFar(t, w, c - start, s[c..end])
    {
      ScanStep(t, w, c - start, s[c..end]);
      if buf[c] == ';' {
        if buf[c + 1] != ';' {
          assert buf[start..d] == w;
          return true, d, c;
        }
        TailAt(s, c, end, 2);
        len, c := len - 1, c + 1;
      } else {
        TailAt(s, c, end, 1);
      }
      len := len - 1;
      w := w + [s[c]];
      buf[d] := buf[c];
      d, c := d + 1, c + 1;
    }
    assert s[c..end] == "";
    ScanEnd(t, w, c - start);
    found := false;
  }

  /** The key loop. */
  method FindEquals(buf: array<char>, c0: nat, len0: nat) returns (c: nat)
    requires c0 + len0 <= buf.Length
    ensures c0 <= c && c - c0 == IndexOf(buf[c0..c0 + len0], '=')
  {
    ghost var t := buf[c0..c0 + len0];
    var len := len0;
    c := c0;
    while len != 0 && buf[c] != '='
      invariant c0 <= c <= c0 + len0 && len == c0 + len0 - c
      invariant forall k | 0 <= k < c - c0 :: t[k] != '='
    {
      c, len := c + 1, len - 1;
    }
  }

  /** parse_keyval up to the `=`, which becomes the NUL that ends the key. */
  method ParseKey(buf: array<char>, c0: nat, len0: nat) returns (ok: bool, key: string, start: nat, len: nat)
    requires c0 + len0 + 1 == buf.Length && buf[buf.Length - 1] == '\0'
    modifies buf
    ensures var t := old(buf[c0..c0 + len0]);
            var i := IndexOf(t, '=');
            && (ok <==> i < |t| && i <= MAX_KEYLEN)
            && (ok ==> key == CString(t[..i]) && start == c0 + i + 1 && start + len + 1 == buf.Length
                       && buf[start..start + len] == t[i + 1..])
    ensures ok ==> forall k | start <= k < buf.Length :: buf[k] == old(buf[k])
  {
    hide CString, IndexOf;
    ghost var t := buf[c0..c0 + len0];
    key, start, len := "", 0, 0;
    var c := FindEquals(buf, c0, len0);
    if c == c0 + len0 || c - c0 > MAX_KEYLEN { return false, key, start, len; }
    buf[c] := '\0';
    assert buf[c0..c] == t[..c - c0];
    key := CString(buf[c0..c]);
    start, len := c + 1, len0 - (c + 1 - c0);
    ok := true;
  }

  /** parse_keyval on the unread part of the buffer. */
  method ParseKeyval(buf: array<char>, c0: nat, len0: nat)
    returns (ok: bool, key: string, val: string, c: nat, len: nat)
    requires c0 + len0 + 1 == buf.Length && buf[buf.Length - 1] == '\0'
    modifies buf
    ensures ok <==> KeyvalAt(old(buf[c0..c0 + len0])).Good?
    ensures ok ==> c + len + 1 == buf.Length && c0 < c && buf[buf.Length - 1] == '\0'
    ensures ok ==> forall k | c <= k < buf.Length :: buf[k] == old(buf[k])
    ensures ok ==> var r := KeyvalAt(old(buf[c0..c0 + len0]));
                   r.key == key && r.value == val && r.rest == buf[c..c + len]
  {
    hide KeyvalAt, ValueAt, CString, IndexOf;
    ghost var t := buf[c0..c0 + len0];
    KeyvalParts(t, IndexOf(t, '='));
    var start;
    ok, key, start, len := ParseKey(buf, c0, len0);
    val, c := "", 0;
    if !ok { return; }
    ok, val, c, len := ParseRest(buf, start, len);
  }

  /** parse_keyval from behind the `=`. */
  method ParseRest(buf: array<char>, start: nat, len0: nat) returns (ok: bool, val: string, c: nat, len: nat)
    requires start + len0 + 1 == buf.Length && buf[buf.Length - 1] == '\0'
    modifies buf
    ensures var u := old(buf[start..start + len0]);
            var r := ValueAt(u);
            && (ok <==> r.Closed? && |r.text| <= MAX_VALLEN)
            && (ok ==> val == r.text && c + len + 1 == buf.Length && start < c && c == start + r.used
                       && u[r.used..] == buf[c..c + len])
    ensures ok ==> forall k | c <= k < buf.Length :: buf[k] == old(buf[k])
  {
    hide ValueAt;
    ghost var s := buf[..];
    ghost var u := s[start..start + len0];
    val, len := "", len0;
    var found, d;
    found, d, c := ParseValue(buf, start, len);
    if !found || d - start > MAX_VALLEN { return false, val, c, len; }
    val := buf[start..d];
    len := start + len - c;
    buf[c] := '\0';
    c, len := c + 1, len - 1;
    assert u[c - start..] == s[c..c + len] == buf[c..c + len];
    ok := true;
  }

  datatype Lookup = Hit(value: string) | Miss | NotFilled

  /**
   getval over a table of nPairs slots of which the first |ps| are filled: the
   first pair with the key, and NotFilled if the search gets beyond them.
   */
  method GetVal(ps: seq<Pair>, nPairs: nat, key: string) returns (r: Lookup)
    requires |ps| <= nPairs
    ensures r.Hit? <==> HasKey(ps, key)
    ensures r.Hit? ==> r.value == ps[FirstKey(ps, key)].value
    ensures r.NotFilled? <==> !HasKey(ps, key) && |ps| < nPairs
  {
    hide FirstKey;
    for i := 0 to nPairs
      invariant i <= |ps|
      invariant forall j | 0 <= j < i :: ps[j].key != key
    {
      if i == |ps| { return NotFilled; }
      if ps[i].key == key { return Hit(ps[i].value); }
    }
    r := Miss;
  }

  function Prefixed(ps: seq<Pair>, r: Option<seq<Pair>>): Option<seq<Pair>> {
    match r
    case None => None
    case Some(qs) => Some(ps + qs)
  }

  lemma PrefixedNothing(r: Option<seq<Pair>>)
    ensures Prefixed([], r) == r
  {
    if r.Some? { assert [] + r.value == r.value; }
  }

  /** Reads the remaining pairs into a table of nPairs slots. */
  method ParsePairs(buf: array<char>, c0: nat, len0: nat, nPairs: nat) returns (ok: bool, ps: seq<Pair>)
    requires c0 + len0 + 1 == buf.Length && buf[buf.Length - 1] == '\0'
    requires ParsedPairs(buf[c0..c0 + len0]) <= nPairs
    modifies buf
    ensures ok <==> PairsOf(old(buf[c0..c0 + len0])).Some?
    ensures ok ==> PairsOf(old(buf[c0..c0 + len0])) == Some(ps)
  {
    hide KeyvalAt, PairsOf, ParsedPairs, Prefixed;
    ghost var t := buf[c0..c0 + len0];
    var pairs := new Pair[nPairs](i => Pair("", ""));
    var pairIndex, c, len := 0, c0, len0;
    PrefixedNothing(PairsOf(t));
    assert pairs[..0] == [];
    while len > 0
      invariant c + len + 1 == buf.Length && buf[buf.Length - 1] == '\0'
      invariant pairIndex + ParsedPairs(buf[c..c + len]) == ParsedPairs(t)
      invariant PairsOf(t) == Prefixed(pairs[..pairIndex], PairsOf(buf[c..c + len]))
      decreases len
    {
      ghost var u, done := buf[c..c + len], pairs[..pairIndex];
      PairsStep(PairsOf(t), done, u);
      var good, key, val;
      good, key, val, c, len := ParseKeyval(buf, c, len);
      if !good { return false, []; }
      pairs[pairIndex] := Pair(key, val);
      pairIndex := pairIndex + 1;
      assert pairs[..pairIndex] == done + [Pair(key, val)];
    }
    ps := pairs[..pairIndex];
    PairsStep(PairsOf(t), ps, buf[c..c + len]);
    ok := true;
  }

  /** One turn of the pair loop. */
  lemma PairsStep(r: Option<seq<Pair>>, ps: seq<Pair>, u: string)
    requires r == Prefixed(ps, PairsOf(u))
    ensures u == "" ==> r == Some(ps)
    ensures u != "" && KeyvalAt(u).Bad? ==> r == None && ParsedPairs(u) == 0
    ensures u != "" && KeyvalAt(u).Good? ==>
              var k := KeyvalAt(u);
              && r == Prefixed(ps + [Pair(k.key, k.value)], PairsOf(k.rest))
              && ParsedPairs(u) == 1 + ParsedPairs(k.rest)
  {
    hide KeyvalAt;
    assert ps + [] == ps;
    if u != "" && KeyvalAt(u).Good? {
      var k := KeyvalAt(u);
      if PairsOf(k.rest).Some? {
        var qs := PairsOf(k.rest).value;
        assert ps + ([Pair(k.key, k.value)] + qs) == ps + [Pair(k.key, k.value)] + qs;
      }
    }
  }

  /** One round of PMIi_ReadCommand: for every way the descriptor splits its reads, the same result and the same rest. */
  method ReadFrame(fd: Pipe, who: string -> Target) returns (r: ReadResult)
    modifies fd
    ensures !fd.faulty || r != ReadFailed ==> (r, fd.bytes) == ReadOne(old(fd.bytes), who)
    ensures IsRest(old(fd.bytes), fd.bytes)
  {
    hide Atoi, ParseBody;
    ghost var s := fd.bytes;
    var lenStr := new char[COMMANDLEN_SIZE + 1](i => '\0');
    var ok := ReadFully(fd, lenStr, COMMANDLEN_SIZE);
    if !ok { return ReadFailed; }
    var cmdLen := Atoi(lenStr[..COMMANDLEN_SIZE]);
    if cmdLen < 0 { return NegativeLength; }
    var buf := new char[cmdLen + 1](i => '\0');
    ok := ReadFully(fd, buf, cmdLen);
    if !ok { return ReadFailed; }
    assert buf[cmdLen..][0] == '\0';
    r := ParseBuffer(buf, cmdLen, who);
  }

  /** PMIi_ReadCommand: frames for other waiting commands are passed over until one is for the caller. */
  method ReadCommand(fd: Pipe, who: string -> Target) returns (r: ReadResult)
    modifies fd
    ensures !fd.faulty || r != ReadFailed ==> (r, fd.bytes) == ReadMine(old(fd.bytes), who)
    ensures IsRest(old(fd.bytes), fd.bytes)
  {
    hide ReadOne;
    ghost var s := fd.bytes;
    r := OtherTarget;
    while r.OtherTarget?
      invariant IsRest(s, fd.bytes)
      invariant r.OtherTarget? ==> ReadMine(fd.bytes, who) == ReadMine(s, who)
      invariant !r.OtherTarget? && (!fd.faulty || r != ReadFailed) ==> (r, fd.bytes) == ReadMine(s, who)
      decreases |fd.bytes|, if r.OtherTarget? then 1 else 0
    {
      r := ReadFrame(fd, who);
    }
  }

  /** Counting, the first pair, the other pairs, and the search for a target. */
  method ParseBuffer(buf: array<char>, cmdLen: nat, who: string -> Target) returns (r: ReadResult)
    requires buf.Length == cmdLen + 1 && buf[cmdLen] == '\0'
    modifies buf
    ensures r == ParseBody(old(buf[..cmdLen]), who)
  {
    hide KeyvalAt, PairsOf, CountPairs, FirstKey;
    ghost var body := buf[..cmdLen];
    var numPairs := CountPass(buf, cmdLen);
    assert buf[0..0 + cmdLen] == body;
    var ok, key, val, c, len := ParseKeyval(buf, 0, cmdLen);
    if !ok { return BadKeyval; }
    if key != "cmd" { return BadCmd; }
    ghost var rest := buf[c..c + len];
    CountOverPair(body, false);
    ParsedAtMostCounted(rest);
    var nPairs := numPairs - 1;
    var ps;
    ok, ps := ParsePairs(buf, c, len, nPairs);
    if !ok { return BadKeyval; }
    CountedExactly(rest);
    var target := GetVal(ps, nPairs, "thrid");
    match target
    case NotFilled => r := Unfilled(ps, nPairs);
    case Miss => r := Command(val, ps, nPairs);
    case Hit(text) =>
      if text == "" { return BadTarget; }
      match who(text) {
        case Mine => r := Command(val, ps, nPairs);
        case Another => r := OtherTarget;
        case Garbled => r := BadTarget;
      }
  }

  // ---- Writing and reading back --------------------------------------------

  /**
   Writes the commands and reads as many back over one descriptor, whose calls
   may move as few bytes as they like: they come back in order, and the
   descriptor is empty again.
   */
  method Exchange(fd: Pipe, cs: seq<Cmd>, who: string -> Target) returns (rs: seq<ReadResult>)
    requires AllWellFormed(cs) && fd.bytes == "" && !fd.faulty
    modifies fd
    ensures fd.bytes == "" && |rs| == |cs|
    ensures forall i | 0 <= i < |cs| :: rs[i] == Received(cs[i])
  {
    hide WellFormed, Frame, ReadMine, Stream;
    WriteCommands(fd, cs);
    rs := [];
    StreamEnds(cs);
    while |rs| < |cs|
      invariant |rs| <= |cs| && fd.bytes == Stream(cs[|rs|..])
      invariant forall i | 0 <= i < |rs| :: rs[i] == Received(cs[i])
    {
      ghost var i := |rs|;
      StreamStep(cs, i);
      CallRoundTrip(cs[i].name, cs[i].pairs, Stream(cs[i + 1..]), who);
      var r := ReadCommand(fd, who);
      rs := rs + [r];
    }
    StreamEnds(cs);
  }

  method WriteCommands(fd: Pipe, cs: seq<Cmd>)
    requires AllWellFormed(cs) && fd.bytes == "" && !fd.faulty
    modifies fd
    ensures fd.bytes == Stream(cs)
  {
    hide WellFormed, Frame, Stream;
    var i := 0;
    StreamEnds(cs);
    while i < |cs|
      invariant 0 <= i <= |cs| && fd.bytes + Stream(cs[i..]) == Stream(cs)
    {
      StreamStep(cs, i);
      FormedWithin(cs[i]);
      var st := WriteSimpleCommand(fd, cs[i].name, cs[i].pairs);
      i := i + 1;
    }
    StreamEnds(cs);
  }

  lemma FormedWithin(c: Cmd)
    requires WellFormed(c.name, c.pairs)
    ensures WithinLimits(c.name, c.pairs)
  {
  }

  lemma StreamStep(cs: seq<Cmd>, i: nat)
    requires AllWellFormed(cs) && i < |cs|
    ensures AllWellFormed(cs[i..]) && AllWellFormed(cs[i + 1..]) && WellFormed(cs[i].name, cs[i].pairs)
    ensures Stream(cs[i..]) == Frame(cs[i].name, cs[i].pairs) + Stream(cs[i + 1..])
  {
    hide WellFormed, Frame;
    assert cs[i..][1..] == cs[i + 1..];
  }

  lemma StreamEnds(cs: seq<Cmd>)
    requires AllWellFormed(cs)
    ensures cs[0..] == cs && AllWellFormed(cs[|cs|..]) && Stream(cs[|cs|..]) == ""
  {
  }
}
