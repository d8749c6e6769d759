/**
 What a PMI-1 task reads, when keys may be put again with other values: the
 puts and snapshots it has merged, as a map, and the puts of the whole run.
 */
module PmiReader {
  import opened PmiClient
  import opened PmiServer
  import opened PmiReplication
  import opened PmiMaster

  // ---- A record as a map ---------------------------------------------------

  /** The value of the first entry with each key. */
  function ValuesOf(es: seq<Entry>): map<string, string> {
    if es == [] then map[] else ValuesOf(es[1..])[es[0].key := es[0].value]
  }

  function Values(recs: seq<Rec>, name: string): map<string, string> {
    var i := FindRec(recs, name);
    if i < |recs| then ValuesOf(recs[i].entries) else map[]
  }

  lemma {:induction false} ValuesFound(es: seq<Entry>, key: string)
    ensures var j := FindKey(es, key);
            && (key in ValuesOf(es) <==> j < |es|)
            && (j < |es| ==> ValuesOf(es)[key] == es[j].value)
  {
    hide FindKey;
    if es != [] {
      ValuesFound(es[1..], key);
      FindKeyStep(es, key);
    }
  }

  lemma FindKeyStep(es: seq<Entry>, key: string)
    requires es != []
    ensures FindKey(es, key) == if es[0].key == key then 0 else 1 + FindKey(es[1..], key)
  {
    hide FindKey;
    var j, k := FindKey(es, key), FindKey(es[1..], key);
    assert k < |es| - 1 ==> es[k + 1].key == key;
    assert 0 < j < |es| ==> es[1..][j - 1].key == key;
  }

  /** A get reads the map of a record in use. */
  lemma GetReads(recs: seq<Rec>, name: string, key: string, length: int)
    requires FindRec(recs, name) < |recs| && !recs[FindRec(recs, name)].defunct
    ensures var m := Values(recs, name);
            Get(recs, name, key, length)
            == if key !in m then NoKey else if |m[key]| > length - 1 then TooLong else Found(m[key])
  {
    hide FindRec, FindLive, FindKey, ValuesOf;
    var i := FindRec(recs, name);
    assert FindLive(recs, name) == i;
    ValuesFound(recs[i].entries, key);
  }

  // ---- Puts ----------------------------------------------------------------

  /** The first value of each key. */
  function FirstValues(ps: seq<Pair>): map<string, string> {
    if ps == [] then map[] else FirstValues(ps[1..])[ps[0].key := ps[0].value]
  }

  /** Pairs merged into a map: a known key keeps its value if duplicates are not looked for, and loses it otherwise. */
  function With(m: map<string, string>, ps: seq<Pair>, noDup: bool): map<string, string> {
    if noDup then FirstValues(ps) + m else m + Overlay(ps)
  }

  lemma {:induction false} AppendedValues(es: seq<Entry>, e: Entry)
    ensures ValuesOf(es + [e]) == map[e.key := e.value] + ValuesOf(es)
  {
    if es == [] {
      assert (es + [e])[1..] == [];
    } else {
      assert (es + [e])[1..] == es[1..] + [e];
      AppendedValues(es[1..], e);
    }
  }

  lemma {:induction false} ReplacedValues(es: seq<Entry>, j: nat, e: Entry)
    requires j < |es| && es[j].key == e.key && forall k | 0 <= k < j :: es[k].key != e.key
    ensures ValuesOf(es[j := e]) == ValuesOf(es)[e.key := e.value]
  {
    if j == 0 {
      assert es[j := e][1..] == es[1..];
    } else {
      assert es[j := e][1..] == es[1..][j - 1 := e];
      ReplacedValues(es[1..], j - 1, e);
    }
  }

  /** A put gives its key the new value, unless duplicates are not looked for and the key is there already. */
  lemma PutEntryValues(es: seq<Entry>, key: string, value: string, local: bool, noDup: bool)
    ensures var m := ValuesOf(es);
            ValuesOf(PutEntry(es, key, value, local, noDup)) == if noDup && key in m then m else m[key := value]
  {
    hide ValuesOf, FindKey;
    var j, state := FindKey(es, key), if local then Local else Global;
    ValuesFound(es, key);
    if noDup || j == |es| {
      AppendedValues(es, Entry(key, value, state));
    } else {
      ReplacedValues(es, j, Entry(key, value, if local then Local else es[j].state));
    }
  }

  lemma PutRecValues(recs: seq<Rec>, name: string, key: string, value: string, local: bool, noDup: bool, other: string)
    ensures var r, m := PutRec(recs, name, key, value, local, noDup), Values(recs, other);
            && (FindRec(r, other) < |r| <==> FindRec(recs, other) < |recs|)
            && Values(r, other)
               == if other != name || FindRec(recs, name) == |recs| || (noDup && key in m) then m else m[key := value]
  {
    hide FindRec, ValuesOf, PutEntry;
    var i, r := FindRec(recs, name), PutRec(recs, name, key, value, local, noDup);
    PutKeepsNames(recs, name, key, value, local, noDup);
    SameNamesFind(recs, r, other);
    if i < |recs| { PutEntryValues(recs[i].entries, key, value, local, noDup); }
  }

  /** A get after a put: the value put, if it is read at all. */
  lemma GetAfterPut(recs: seq<Rec>, name: string, key: string, value: string, noDup: bool, length: int)
    requires FindRec(recs, name) < |recs| && !recs[FindRec(recs, name)].defunct
    ensures Get(PutRec(recs, name, key, value, true, noDup), name, key, length)
            == if noDup && key in Values(recs, name) then Get(recs, name, key, length)
               else if |value| > length - 1 then TooLong
               else Found(value)
  {
    hide FindRec, Get, Values, PutEntry;
    var r := PutRec(recs, name, key, value, true, noDup);
    PutRecValues(recs, name, key, value, true, noDup, name);
    PutKeepsNames(recs, name, key, value, true, noDup);
    SameNamesFind(recs, r, name);
    GetReads(recs, name, key, length);
    GetReads(r, name, key, length);
  }

  // ---- Snapshots -----------------------------------------------------------

  lemma WithNone(m: map<string, string>, noDup: bool)
    ensures With(m, [], noDup) == m
  {
  }

  lemma WithFirst(m: map<string, string>, ps: seq<Pair>, noDup: bool)
    requires ps != []
    ensures var p := ps[0];
            With(if noDup && p.key in m then m else m[p.key := p.value], ps[1..], noDup) == With(m, ps, noDup)
  {
    if !noDup { OverlayFirst(m, ps); }
  }

  lemma {:induction false} WithMore(m: map<string, string>, ps: seq<Pair>, qs: seq<Pair>, noDup: bool)
    ensures With(With(m, ps, noDup), qs, noDup) == With(m, ps + qs, noDup)
    decreases |ps|
  {
    hide With, Overlay, FirstValues;
    if ps == [] {
      WithNone(m, noDup);
      assert ps + qs == qs;
    } else {
      var n := if noDup && ps[0].key in m then m else m[ps[0].key := ps[0].value];
      WithFirst(m, ps, noDup);
      WithFirst(m, ps + qs, noDup);
      assert (ps + qs)[1..] == ps[1..] + qs;
      WithMore(n, ps[1..], qs, noDup);
    }
  }

  lemma {:induction false} ReceivePairsValues(recs: seq<Rec>, name: string, ps: seq<Pair>, noDup: bool, other: string)
    requires HasRec(recs, other)
    ensures var r := ReceivePairs(recs, name, ps, noDup);
            HasRec(r, other) && Values(r, other) == With(Values(recs, other), if other == name then ps else [], noDup)
    decreases |ps|
  {
    hide Values, With, PutRec, FindRec;
    WithNone(Values(recs, other), noDup);
    if ps != [] {
      PutRecValues(recs, name, ps[0].key, ps[0].value, false, noDup, other);
      var q := PutRec(recs, name, ps[0].key, ps[0].value, false, noDup);
      ReceivePairsValues(q, name, ps[1..], noDup, other);
      if other == name {
        WithFirst(Values(recs, other), ps, noDup);
      } else {
        WithNone(Values(q, other), noDup);
      }
    }
  }

  lemma {:induction false} ReceiveAllValues(recs: seq<Rec>, snapshot: seq<Comm>, noDup: bool, name: string)
    requires HasRec(recs, name)
    ensures var r := ReceiveAll(recs, snapshot, noDup);
            HasRec(r, name) && Values(r, name) == With(Values(recs, name), SentIn(snapshot, name), noDup)
    decreases |snapshot|
  {
    hide Values, With, ReceivePairs, HasRec;
    if snapshot == [] {
      WithNone(Values(recs, name), noDup);
    } else {
      var c := snapshot[0];
      ReceivePairsValues(recs, c.name, c.pairs, noDup, name);
      ReceiveAllValues(ReceivePairs(recs, c.name, c.pairs, noDup), snapshot[1..], noDup, name);
      WithMore(Values(recs, name), if name == c.name then c.pairs else [], SentIn(snapshot[1..], name), noDup);
    }
  }

  lemma {:induction false} SameValues(a: seq<Entry>, b: seq<Entry>)
    requires |a| == |b| && forall j | 0 <= j < |a| :: a[j].key == b[j].key && a[j].value == b[j].value
    ensures ValuesOf(a) == ValuesOf(b)
  {
    if a != [] { SameValues(a[1..], b[1..]); }
  }

  lemma DisableValues(recs: seq<Rec>, name: string)
    ensures Values(Disable(recs), name) == Values(recs, name)
    ensures HasRec(Disable(recs), name) <==> HasRec(recs, name)
  {
    hide FindRec, ValuesOf, Disable, DisabledEntries;
    var i, r := FindRec(recs, name), Disable(recs);
    SameNamesFind(recs, r, name);
    if i < |recs| { SameValues(recs[i].entries, r[i].entries); }
  }

  /** A task that returns from the barriers of a log, one after the other. */
  function ReceiveLog(recs: seq<Rec>, log: seq<seq<Comm>>, noDup: bool): seq<Rec>
    decreases |log|
  {
    if log == [] then recs else ReceiveLog(Receive(recs, log[0], noDup), log[1..], noDup)
  }

  lemma {:induction false} ReceiveLogValues(recs: seq<Rec>, log: seq<seq<Comm>>, noDup: bool, name: string)
    requires HasRec(recs, name)
    ensures var r := ReceiveLog(recs, log, noDup);
            HasRec(r, name) && Values(r, name) == With(Values(recs, name), SentLog(log, name), noDup)
    decreases |log|
  {
    hide Values, With, ReceiveAll, HasRec, Disable;
    if log == [] {
      WithNone(Values(recs, name), noDup);
    } else {
      DisableValues(recs, name);
      ReceiveAllValues(Disable(recs), log[0], noDup, name);
      ReceiveLogValues(Receive(recs, log[0], noDup), log[1..], noDup, name);
      WithMore(Values(recs, name), SentIn(log[0], name), SentLog(log[1..], name), noDup);
    }
  }

  // ---- Puts and gets of a whole run ----------------------------------------

  /**
   A task in duplicate mode with a new record of a space, once it has returned
   from all barriers of a run: it reads, for each key, the value put last.
   */
  lemma ReaderHoldsLastPuts(ops: seq<Op>, serverNoDup: bool, recs: seq<Rec>, name: string)
    requires AllAdmissible(ops, serverNoDup) && HasRec(recs, name) && Values(recs, name) == map[]
    ensures var log := Apply(Run(Fresh, ops, serverNoDup), Complete, serverNoDup).log;
            Values(ReceiveLog(recs, log, false), name) == Overlay(AllPut(ops, name))
  {
    hide Values, ReceiveLog, HasRec, Run, Apply, AllPut, SentLog, Overlay;
    var log := Apply(Run(Fresh, ops, serverNoDup), Complete, serverNoDup).log;
    ReceiveLogValues(recs, log, false, name);
    SnapshotsArePuts(ops, name, serverNoDup);
    assert map[] + Overlay(SentLog(log, name)) == Overlay(SentLog(log, name));
  }

  /** With duplicate checking off at both ends: the value put first. */
  lemma ReaderHoldsFirstPuts(ops: seq<Op>, recs: seq<Rec>, name: string)
    requires HasRec(recs, name) && Values(recs, name) == map[]
    ensures var log := Apply(Run(Fresh, ops, true), Complete, true).log;
            Values(ReceiveLog(recs, log, true), name) == FirstValues(AllPut(ops, name))
  {
    hide Values, ReceiveLog, HasRec, Run, Apply, AllPut, SentLog, FirstValues;
    var log := Apply(Run(Fresh, ops, true), Complete, true).log;
    ReceiveLogValues(recs, log, true, name);
    SnapshotsArePuts(ops, name, true);
    assert FirstValues(SentLog(log, name)) + map[] == FirstValues(SentLog(log, name));
  }
}
