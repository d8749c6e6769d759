/**
 The buffered line reader of contribs/pmi2/pmi2_util.c.  Its buffer outlives the
 calls, so a line may start in bytes fetched by an earlier call; over any number
 of calls and any chunking of the reads it returns the stream, cut into lines.
 */
module Pmi2Readline {
  import opened Pmi2Codec

  const MAX_READLINE := 1024

  /** The next line of a stream: up to a newline, or `room` bytes, or the end. */
  function Cut(s: string, room: nat): string {
    if room == 0 || s == "" then ""
    else if s[0] == '\n' then "\n"
    else [s[0]] + Cut(s[1..], room - 1)
  }

  /** A prefix of the stream, no longer than the room, with a newline at most at its end; shorter only at a newline or the end. */
  lemma {:induction false} CutIsLine(s: string, room: nat)
    ensures var line := Cut(s, room);
            && line <= s && |line| <= room
            && (forall i | 0 <= i < |line| - 1 :: line[i] != '\n')
            && (|line| < room && line < s ==> line != "" && line[|line| - 1] == '\n')
  {
    if room > 0 && s != "" && s[0] != '\n' {
      CutIsLine(s[1..], room - 1);
      var line, rest := Cut(s, room), Cut(s[1..], room - 1);
      assert line == [s[0]] + rest && s == [s[0]] + s[1..];
    }
  }

  function Room(maxlen: int): nat { if maxlen <= 1 then 0 else maxlen - 1 }

  /** One line at most, which leaves a byte for the NUL and is shorter only at a newline or the end. */
  ghost predicate FillsBuffer(s: string, maxlen: int, line: string) {
    && line <= s && (forall i | 0 <= i < |line| - 1 :: line[i] != '\n')
    && (if maxlen <= 1 then line == ""
        else |line| == maxlen - 1 || (|line| < maxlen - 1 && (line == s || (line != "" && line[|line| - 1] == '\n'))))
  }

  lemma CutFillsBuffer(s: string, maxlen: int)
    ensures FillsBuffer(s, maxlen, Cut(s, Room(maxlen)))
  {
    hide Cut;
    CutIsLine(s, Room(maxlen));
  }

  class Reader {
    const fd: Pipe
    const readbuf: array<char>
    var nextChar: nat
    var lastChar: nat

    ghost predicate Valid()
      reads this
    {
      readbuf.Length == MAX_READLINE && nextChar <= lastChar < MAX_READLINE
    }

    /** Everything not returned yet: buffered bytes, then bytes still in the descriptor. */
    ghost function Pending(): string
      reads this, readbuf, fd
      requires Valid()
    {
      readbuf[nextChar..lastChar] + fd.bytes
    }

    constructor (fd: Pipe)
      ensures Valid() && this.fd == fd && fresh(readbuf) && Pending() == fd.bytes
    {
      this.fd := fd;
      readbuf := new char[MAX_READLINE](i => '\0');
      nextChar, lastChar := 0, 0;
    }

    /** One `read` into the empty buffer. */
    method Refill() returns (n: int)
      requires Valid() && nextChar == lastChar
      modifies this, readbuf, fd
      ensures Valid() && Pending() == old(Pending())
      ensures n > 0 ==> nextChar < lastChar
      ensures n == 0 ==> Pending() == ""
      ensures n < 0 ==> fd.faulty
    {
      var chunk;
      n, chunk := fd.Read(MAX_READLINE - 1);
      if n <= 0 { return; }
      PutText(readbuf, 0, chunk);
      nextChar, lastChar := 0, |chunk|;
      assert readbuf[0..|chunk|] == readbuf[..0 + |chunk|] == chunk;
      readbuf[lastChar] := '\0';
      assert readbuf[0..|chunk|] == chunk;
    }

    /** The next byte, refilling the buffer when it is empty. */
    method NextChar() returns (f: Fetched)
      requires Valid()
      modifies this, readbuf, fd
      ensures Valid()
      ensures f.Char? ==> old(Pending()) == [f.ch] + Pending()
      ensures !f.Char? ==> old(Pending()) == Pending()
      ensures f.Eof? ==> Pending() == ""
      ensures f.Error? ==> fd.faulty
    {
      if nextChar == lastChar {
        var n := Refill();
        if n == 0 { return Eof; }
        if n < 0 { return Error; }
      }
      f := Char(readbuf[nextChar]);
      nextChar := nextChar + 1;
    }

    /**
     PMI2U_readline: the line, and the number returned, which is -1 when an error
     comes before the first byte.  An error later ends the line early.
     */
    method Readline(maxlen: int) returns (rc: int, line: string)
      requires Valid()
      modifies this, readbuf, fd
      ensures Valid()
      ensures old(Pending()) == line + Pending()
      ensures line <= Cut(old(Pending()), Room(maxlen))
      ensures !fd.faulty ==> line == Cut(old(Pending()), Room(maxlen)) && FillsBuffer(old(Pending()), maxlen, line)
      ensures rc == |line| || (rc == -1 && line == "" && fd.faulty)
    {
      hide Cut, Pending, Midway, FillsBuffer;
      ghost var s, room := Pending(), Room(maxlen);
      CutFillsBuffer(s, maxlen);
      line := "";
      var curlen := 1;
      MidwayStart(s, room);
      while curlen < maxlen
        invariant Valid() && curlen == |line| + 1 && |line| <= room
        invariant Midway(s, room, line, Pending())
        decreases maxlen - curlen
      {
        ghost var p := Pending();
        MidwayMeans(s, room, line, p);
        var f := NextChar();
        if f.Eof? { return |line|, line; }
        if f.Error? { return if curlen == 1 then -1 else |line|, line; }
        MidwayStep(s, room, line, p, f.ch, Pending());
        line := line + [f.ch];
        curlen := curlen + 1;
        if f.ch == '\n' { return |line|, line; }
      }
      MidwayMeans(s, room, line, Pending());
      rc := |line|;
    }

    /** Successive calls: nothing is lost, repeated or reordered between them, whatever the buffer held over. */
    method ReadLines(maxlens: seq<int>) returns (lines: seq<string>)
      requires Valid()
      modifies this, readbuf, fd
      ensures Valid() && old(Pending()) == Joined(lines) + Pending()
      ensures !fd.faulty ==> lines == Calls(old(Pending()), maxlens)
    {
      hide Cut, Pending, Calls, Joined;
      ghost var s := Pending();
      lines := [];
      CallsStart(s, maxlens);
      while |lines| < |maxlens|
        invariant Valid() && |lines| <= |maxlens|
        invariant !fd.faulty ==> lines + Calls(Pending(), maxlens[|lines|..]) == Calls(s, maxlens)
        invariant s == Joined(lines) + Pending()
      {
        ghost var p := Pending();
        var n := |lines|;
        var rc, line := Readline(maxlens[n]);
        if !fd.faulty { CallsStep(p, maxlens, n, Pending()); }
        JoinedSnoc(lines, line, Pending());
        assert lines + ([line] + Calls(Pending(), maxlens[n + 1..])) == lines + [line] + Calls(Pending(), maxlens[n + 1..]);
        lines := lines + [line];
      }
      CallsEnd(Pending(), maxlens);
    }
  }

  datatype Fetched = Char(ch: char) | Eof | Error

  /** `line` has been read and p is left, and the line goes on. */
  ghost predicate Midway(s: string, room: nat, line: string, p: string) {
    |line| <= room && s == line + p && Cut(s, room) == line + Cut(p, room - |line|)
  }

  lemma MidwayStart(s: string, room: nat)
    ensures Midway(s, room, "", s)
  {
    hide Cut;
    assert "" + s == s && "" + Cut(s, room) == Cut(s, room);
  }

  lemma MidwayMeans(s: string, room: nat, line: string, p: string)
    requires Midway(s, room, line, p)
    ensures s == line + p && line <= Cut(s, room)
    ensures p == "" || |line| == room ==> line == Cut(s, room)
  {
    assert line + "" == line;
  }

  lemma MidwayStep(s: string, room: nat, line: string, p: string, ch: char, q: string)
    requires Midway(s, room, line, p) && |line| < room && p == [ch] + q
    ensures s == line + [ch] + q && line + [ch] <= Cut(s, room)
    ensures if ch == '\n' then line + [ch] == Cut(s, room) else Midway(s, room, line + [ch], q)
  {
    hide Cut;
    CutFirst(p, room - |line|);
    assert p[0] == ch && p[1..] == q && |line + [ch]| == |line| + 1;
    LongerLine(line, ch, q);
    LongerLine(line, ch, Cut(q, room - |line| - 1));
  }

  lemma LongerLine(line: string, ch: char, q: string)
    ensures line + ([ch] + q) == line + [ch] + q
  {
  }

  lemma CutFirst(p: string, room: nat)
    requires p != "" && room > 0
    ensures Cut(p, room) == if p[0] == '\n' then [p[0]] else [p[0]] + Cut(p[1..], room - 1)
  {
  }

  // ---- Any number of calls -------------------------------------------------

  /** The lines of successive calls. */
  function Calls(s: string, maxlens: seq<int>): seq<string> {
    if maxlens == [] then []
    else
      var line := Cut(s, Room(maxlens[0]));
      CutIsLine(s, Room(maxlens[0]));
      [line] + Calls(s[|line|..], maxlens[1..])
  }

  function Joined(lines: seq<string>): string {
    if lines == [] then "" else lines[0] + Joined(lines[1..])
  }

  lemma CallsStart(s: string, maxlens: seq<int>)
    ensures [] + Calls(s, maxlens[0..]) == Calls(s, maxlens) && s == Joined([]) + s
  {
    assert maxlens[0..] == maxlens;
  }

  lemma CallsEnd(s: string, maxlens: seq<int>)
    ensures Calls(s, maxlens[|maxlens|..]) == []
  {
  }

  lemma CallsStep(s: string, maxlens: seq<int>, n: nat, rest: string)
    requires n < |maxlens| && s == Cut(s, Room(maxlens[n])) + rest
    ensures Calls(s, maxlens[n..]) == [Cut(s, Room(maxlens[n]))] + Calls(rest, maxlens[n + 1..])
  {
    hide Cut;
    assert maxlens[n..][1..] == maxlens[n + 1..];
    assert s[|Cut(s, Room(maxlens[n]))|..] == rest;
  }

  lemma {:induction false} JoinedSnoc(lines: seq<string>, line: string, rest: string)
    ensures Joined(lines) + (line + rest) == Joined(lines + [line]) + rest
  {
    JoinedLast(lines, line);
  }

  lemma {:induction false} JoinedLast(lines: seq<string>, line: string)
    ensures Joined(lines + [line]) == Joined(lines) + line
  {
    if lines == [] {
      assert (lines + [line])[1..] == [];
    } else {
      JoinedLast(lines[1..], line);
      assert (lines + [line])[1..] == lines[1..] + [line];
    }
  }

  /** One line per call, each cut from what the ones before it left. */
  ghost predicate CutInTurn(s: string, maxlens: seq<int>, lines: seq<string>)
    decreases |maxlens|
  {
    && |lines| == |maxlens|
    && (maxlens != [] ==> FillsBuffer(s, maxlens[0], lines[0]) && CutInTurn(s[|lines[0]|..], maxlens[1..], lines[1..]))
  }

  /** The lines, joined, are a prefix of the stream, each cut as one call cuts it. */
  lemma {:induction false} CallsCutTheStream(s: string, maxlens: seq<int>)
    ensures Joined(Calls(s, maxlens)) <= s && CutInTurn(s, maxlens, Calls(s, maxlens))
    decreases |maxlens|
  {
    if maxlens != [] {
      hide Cut;
      var line := Cut(s, Room(maxlens[0]));
      CutIsLine(s, Room(maxlens[0]));
      CutFillsBuffer(s, maxlens[0]);
      CallsCutTheStream(s[|line|..], maxlens[1..]);
      PrefixAfter(s, line, Joined(Calls(s[|line|..], maxlens[1..])));
    }
  }

  lemma PrefixAfter(s: string, line: string, more: string)
    requires line <= s && more <= s[|line|..]
    ensures line + more <= s
  {
    assert s == line + s[|line|..];
  }
}
