/**
 How the step daemon splits the body of a PMI-2 request into pairs
 (src/plugins/mpi/pmi2/client.c).  The writer doubles a semicolon inside a value
 and this reader does not undo it; when the pairs come through all the same.
 */
module Pmi2Body {
  import opened Pmi2Wire
  import opened Pmi2Spawn
  import opened Pmi2SpawnRead

  /** The pairs up to the end, or up to a key without value or a value without end. */
  function SplitBody(s: string): (seq<Pair>, bool)
    decreases |s|
  {
    var i := IndexOf(s, '=');
    if s == "" then ([], true)
    else if i == |s| then ([], false)
    else
      var t := s[i + 1..];
      var j := IndexOf(t, ';');
      if j == |t| then ([], false)
      else
        var (ps, ok) := SplitBody(t[j + 1..]);
        ([Pair(s[..i], t[..j])] + ps, ok)
  }

  // ---- Escaped values ------------------------------------------------------

  /** Up to its first semicolon a value is written as it is; the next character written is one too. */
  lemma {:induction false} EscapedUntil(v: string)
    ensures var x := IndexOf(v, ';');
            && x <= |Escape(v)| && Escape(v)[..x] == v[..x]
            && (if x == |v| then Escape(v) == v else x < |Escape(v)| && Escape(v)[x] == ';')
  {
    hide IndexOf;
    if v != "" {
      var x := IndexOf(v, ';');
      if v[0] == ';' {
        assert x == 0;
      } else {
        EscapedUntil(v[1..]);
        IndexTail(v, ';');
        assert Escape(v) == [v[0]] + Escape(v[1..]);
        assert v == [v[0]] + v[1..];
      }
    }
  }

  lemma IndexTail(s: string, c: char)
    requires s != "" && s[0] != c
    ensures IndexOf(s, c) == 1 + IndexOf(s[1..], c)
  {
    hide IndexOf;
    var i, k := IndexOf(s, c), IndexOf(s[1..], c);
    assert k < |s| - 1 ==> s[k + 1] == c;
    assert i < |s| ==> s[1..][i - 1] == c;
  }

  lemma IndexFound(s: string, c: char, i: nat)
    requires i < |s| && s[i] == c && forall k | 0 <= k < i :: s[k] != c
    ensures IndexOf(s, c) == i
  {
    hide IndexOf;
  }

  /** The pairs split off so far, and what the rest of the text gives. */
  function With(done: seq<Pair>, r: (seq<Pair>, bool)): (seq<Pair>, bool) { (done + r.0, r.1) }

  lemma WithOne(done: seq<Pair>, p: Pair, r: (seq<Pair>, bool))
    ensures With(done, With([p], r)) == With(done + [p], r)
  {
    assert done + ([p] + r.0) == done + [p] + r.0;
  }

  lemma WithNone(done: seq<Pair>, r: (seq<Pair>, bool))
    ensures With([], r) == r && With(done, ([], r.1)) == (done, r.1)
  {
    assert [] + r.0 == r.0 && done + [] == done;
  }

  lemma SplitStep(s: string, t: string)
    requires IndexOf(s, '=') < |s| && t == s[IndexOf(s, '=') + 1..] && IndexOf(t, ';') < |t|
    ensures var i, j := IndexOf(s, '='), IndexOf(t, ';');
            SplitBody(s) == With([Pair(s[..i], t[..j])], SplitBody(t[j + 1..]))
  {
    hide IndexOf;
  }

  /** Where the reader ends a value as written: at its first semicolon, or behind it. */
  lemma ValueEnds(v: string, more: string)
    ensures var t, x := Escape(v) + [';'] + more, IndexOf(v, ';');
            && IndexOf(t, ';') == x && x < |t| && t[..x] == v[..x]
            && (x == |v| ==> t[x + 1..] == more)
  {
    hide IndexOf, Escape;
    EscapedUntil(v);
    var e, x := Escape(v), IndexOf(v, ';');
    var t := e + [';'] + more;
    assert t[..x] == e[..x] && t[x] == ';';
    forall k | 0 <= k < x ensures t[k] != ';' { assert t[k] == t[..x][k] == v[..x][k] == v[k]; }
    IndexFound(t, ';', x);
  }

  /** One pair as written, with more text after it: its value is cut at the first semicolon. */
  lemma FirstPair(p: Pair, more: string)
    requires '=' !in p.key
    ensures var x := IndexOf(p.value, ';');
            && SplitBody(PairText(p) + more).0 != []
            && SplitBody(PairText(p) + more).0[0] == Pair(p.key, p.value[..x])
            && (x == |p.value| ==> SplitBody(PairText(p) + more) == With([p], SplitBody(more)))
  {
    hide IndexOf, Escape, PairText, SplitBody;
    var t := Escape(p.value) + [';'] + more;
    PairTextSplit(p.key, p.value, more);
    IndexSkips(p.key, '=', t);
    Slices(p.key, '=', t);
    ValueEnds(p.value, more);
    SplitStep(p.key + ['='] + t, t);
    WholeString(p.value);
  }

  ghost predicate NoSemicolons(ps: seq<Pair>) { forall i | 0 <= i < |ps| :: ';' !in ps[i].value }

  /** A list with clean keys is split as it was written if and only if no value has a semicolon. */
  lemma {:induction false} SplitsBackIff(ps: seq<Pair>)
    requires forall i | 0 <= i < |ps| :: '=' !in ps[i].key
    ensures SplitBody(PairsText(ps)) == (ps, true) <==> NoSemicolons(ps)
  {
    if ps == [] {
      NothingToSplit();
    } else {
      SplitsBackIff(ps[1..]);
      hide SplitBody, PairText, IndexOf, NoSemicolons, With;
      FirstPair(ps[0], PairsText(ps[1..]));
      NoSemicolonFirst(ps);
      if IndexOf(ps[0].value, ';') == |ps[0].value| { FirstSplit(ps, SplitBody(PairsText(ps[1..]))); }
    }
  }

  lemma FirstSplit(ps: seq<Pair>, r: (seq<Pair>, bool))
    requires ps != []
    ensures With([ps[0]], r) == (ps, true) <==> r == (ps[1..], true)
  {
    assert ([ps[0]] + r.0)[1..] == r.0;
    assert ps == [ps[0]] + ps[1..];
  }

  /** A semicolon inside a value cuts it. */
  lemma SemicolonCuts()
    ensures var ps := SplitBody(PairText(Pair("argv0", "a;b"))).0;
            ps != [] && ps[0] == Pair("argv0", "a")
  {
    hide SplitBody, PairText, IndexOf;
    var p := Pair("argv0", "a;b");
    FirstPair(p, "");
    IndexFound(p.value, ';', 1);
    assert PairText(p) + "" == PairText(p) && p.value[..1] == "a";
  }

  lemma NoSemicolonFirst(ps: seq<Pair>)
    requires ps != []
    ensures NoSemicolons(ps) <==> IndexOf(ps[0].value, ';') == |ps[0].value| && NoSemicolons(ps[1..])
  {
    hide IndexOf;
    var v := ps[0].value;
    assert IndexOf(v, ';') < |v| ==> v[IndexOf(v, ';')] == ';';
    if NoSemicolons(ps[1..]) && ';' !in v {
      forall i | 0 <= i < |ps| ensures ';' !in ps[i].value { if i > 0 { assert ps[i] == ps[1..][i - 1]; } }
    }
  }

  lemma NothingToSplit()
    ensures SplitBody("") == ([], true) && PairsText([]) == ""
  {
  }

  /** The text of a spawn command, through both stages: a command without semicolons arrives as it was meant. */
  lemma SpawnArrives(preput: seq<Pair>, jobs: seq<Job>, hasInfo: bool)
    requires |SpawnPairs(preput, jobs, hasInfo)| < WORD && forall i | 0 <= i < |jobs| :: jobs[i].maxprocs < WORD
    requires (jobs != [] || |preput| >= 2) && NoSemicolons(SpawnPairs(preput, jobs, hasInfo))
    ensures ReadSpawn(SplitBody(PairsText(SpawnPairs(preput, jobs, hasInfo))).0)
            == Took(SpawnReq(preput, ToldAll(jobs, hasInfo)), [])
  {
    hide SpawnPairs, SplitBody, PairsText, ReadSpawn, NoSemicolons, ToldAll;
    var ps := SpawnPairs(preput, jobs, hasInfo);
    SpawnPlain(preput, jobs, hasInfo);
    forall i | 0 <= i < |ps| ensures '=' !in ps[i].key { assert PlainKey(ps[i].key); }
    SplitsBackIff(ps);
    SpawnReadBack(preput, jobs, hasInfo);
  }

  // ---- The loop ------------------------------------------------------------

  /** The search for a character from a position on. */
  method Search(buf: string, from: nat, c: char) returns (i: nat)
    requires from <= |buf|
    ensures i == from + IndexOf(buf[from..], c)
  {
    hide IndexOf;
    i := from;
    while i < |buf| && buf[i] != c
      invariant from <= i <= |buf| && forall k | from <= k < i :: buf[k] != c
    {
      i := i + 1;
    }
    var s, j := buf[from..], i - from;
    assert forall k | 0 <= k < j :: s[k] != c;
    if i < |buf| { IndexFound(s, c, j); }
  }

  /** client_req_parse_body: the pairs and whether the body was well formed. */
  method ParseBody(buf: string, start: nat) returns (pairs: seq<Pair>, ok: bool)
    requires start <= |buf|
    ensures (pairs, ok) == SplitBody(buf[start..])
  {
    hide IndexOf, SplitBody, With;
    pairs, ok := [], true;
    var i := start;
    WithNone([], SplitBody(buf[start..]));
    while i < |buf|
      invariant start <= i <= |buf|
      invariant SplitBody(buf[start..]) == With(pairs, SplitBody(buf[i..]))
    {
      ghost var s := buf[i..];
      WithNone(pairs, ([], false));
      var e := Search(buf, i, '=');
      if e == |buf| {
        SplitStops(s);
        return pairs, false;
      }
      var f := Search(buf, e + 1, ';');
      ghost var t := buf[e + 1..];
      assert s[e - i + 1..] == t && s[..e - i] == buf[i..e];
      if f == |buf| {
        SplitStops(s);
        return pairs, false;
      }
      assert t[..f - e - 1] == buf[e + 1..f] && t[f - e..] == buf[f + 1..];
      SplitStep(s, t);
      WithOne(pairs, Pair(buf[i..e], buf[e + 1..f]), SplitBody(buf[f + 1..]));
      pairs := pairs + [Pair(buf[i..e], buf[e + 1..f])];
      i := f + 1;
    }
    NothingToSplit();
    WithNone(pairs, ([], true));
    assert buf[i..] == "";
  }

  /** A key without value, or a value without end. */
  lemma SplitStops(s: string)
    requires s != ""
    requires IndexOf(s, '=') == |s| || IndexOf(s[IndexOf(s, '=') + 1..], ';') == |s| - IndexOf(s, '=') - 1
    ensures SplitBody(s) == ([], false)
  {
    hide IndexOf;
  }
}
