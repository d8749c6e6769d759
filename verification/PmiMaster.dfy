/**
 What the master copy of the PMI-1 server holds, in terms of the puts alone: with
 duplicate checking off the lists put, one after the other; with duplicates
 allowed a map in which a later put of a key replaces an earlier one.
 */
module PmiMaster {
  import opened PmiClient
  import opened PmiServer
  import opened PmiReplication

  // ---- One list ------------------------------------------------------------

  lemma {:induction false} OverlayReplaced(ps: seq<Pair>, j: nat, p: Pair)
    requires j < |ps| && ps[j].key == p.key && forall k | j < k < |ps| :: ps[k].key != p.key
    ensures Overlay(ps[j := p]) == Overlay(ps)[p.key := p.value]
    decreases |ps|
  {
    var n := |ps| - 1;
    var q := ps[j := p];
    if j == n {
      assert q[..n] == ps[..n];
    } else {
      assert q[..n] == ps[..n][j := p] && ps[n].key != p.key;
      OverlayReplaced(ps[..n], j, p);
    }
  }

  /** A pair put last is the one found for its key; the other keys keep their values. */
  lemma MergeOneReplaces(t: Table, p: Pair)
    requires |t.pairs| == |t.sent| && DistinctKeys(t.pairs)
    ensures var r := MergeOne(t, p, false);
            DistinctKeys(r.pairs) && Overlay(r.pairs) == Overlay(t.pairs)[p.key := p.value]
  {
    hide Overlay, FindPair;
    var j := FindPair(t.pairs, p.key);
    if j < |t.pairs| {
      OverlayReplaced(t.pairs, j, p);
    } else {
      OverlaySnoc(t.pairs, p);
    }
  }

  lemma {:induction false} MergeAllReplaces(t: Table, ps: seq<Pair>)
    requires |t.pairs| == |t.sent| && DistinctKeys(t.pairs)
    ensures var r := MergeAll(t, ps, false);
            DistinctKeys(r.pairs) && Overlay(r.pairs) == Overlay(t.pairs) + Overlay(ps)
    decreases |ps|
  {
    if ps != [] {
      hide MergeOne, Overlay, DistinctKeys;
      MergeOneReplaces(t, ps[0]);
      MergeAllReplaces(MergeOne(t, ps[0], false), ps[1..]);
      OverlayFirst(Overlay(t.pairs), ps);
    }
  }

  lemma OverlayFirst(m: map<string, string>, ps: seq<Pair>)
    requires ps != []
    ensures m[ps[0].key := ps[0].value] + Overlay(ps[1..]) == m + Overlay(ps)
  {
    assert ps == [ps[0]] + ps[1..];
    OverlayAppend([ps[0]], ps[1..]);
    assert Overlay([ps[0]]) == map[ps[0].key := ps[0].value];
  }

  /** Merging a list into a space with distinct keys: later values win, nothing else changes. */
  lemma MergedReplaces(k: Kvs, ps: seq<Pair>)
    requires Shaped(k) && DistinctKeys(k.pairs)
    ensures var r := Merged(k, ps, false);
            DistinctKeys(r.pairs) && Overlay(r.pairs) == Overlay(k.pairs) + Overlay(ps)
  {
    hide MergeAll, Overlay, DistinctKeys;
    MergeAllReplaces(TableOf(k), ps);
  }

  /** Without duplicate checking, the list is appended. */
  lemma MergedAppends(k: Kvs, ps: seq<Pair>)
    requires Shaped(k)
    ensures Merged(k, ps, true).pairs == k.pairs + ps
  {
    AppendAll(TableOf(k), ps);
  }

  // ---- Every space ---------------------------------------------------------

  /** The pairs of the space with the name. */
  function Content(ks: seq<Kvs>, name: string): seq<Pair> {
    var i := FindKvs(ks, name);
    if i < |ks| then ks[i].pairs else []
  }

  ghost predicate HasKvs(ks: seq<Kvs>, name: string) { FindKvs(ks, name) < |ks| }

  /** The content is what it was, then ps: as a list, or as a map. */
  ghost predicate Then(after: seq<Pair>, before: seq<Pair>, ps: seq<Pair>, noDup: bool) {
    if noDup then after == before + ps else Overlay(after) == Overlay(before) + Overlay(ps)
  }

  lemma ThenNothing(a: seq<Pair>, noDup: bool)
    ensures Then(a, a, [], noDup)
  {
    assert a + [] == a;
  }

  lemma ThenThen(a: seq<Pair>, b: seq<Pair>, c: seq<Pair>, ps: seq<Pair>, qs: seq<Pair>, noDup: bool)
    requires Then(b, a, ps, noDup) && Then(c, b, qs, noDup)
    ensures Then(c, a, ps + qs, noDup)
  {
    OverlayAppend(ps, qs);
    hide Overlay;
    assert a + ps + qs == a + (ps + qs);
    assert Overlay(a) + Overlay(ps) + Overlay(qs) == Overlay(a) + (Overlay(ps) + Overlay(qs));
  }

  lemma MergedThen(k: Kvs, ps: seq<Pair>, noDup: bool)
    requires Shaped(k) && (noDup || DistinctKeys(k.pairs))
    ensures Then(Merged(k, ps, noDup).pairs, k.pairs, ps, noDup) && (noDup || DistinctKeys(Merged(k, ps, noDup).pairs))
  {
    hide Merged, Overlay, DistinctKeys;
    if noDup { MergedAppends(k, ps); } else { MergedReplaces(k, ps); }
  }

  lemma FindSame(a: seq<Kvs>, b: seq<Kvs>, name: string)
    requires |a| <= |b| && forall x | 0 <= x < |a| :: a[x].name == b[x].name
    requires FindKvs(a, name) < |a| || |a| == |b|
    ensures FindKvs(b, name) == if FindKvs(a, name) < |a| then FindKvs(a, name) else |b|
  {
    hide FindKvs;
    var i, j := FindKvs(a, name), FindKvs(b, name);
    assert j < |a| ==> a[j].name == name;
    assert i < |a| ==> b[i].name == name;
  }

  lemma PutCommContent(ks: seq<Kvs>, c: Comm, noDup: bool, name: string)
    requires AllShaped(ks) && (noDup || DistinctKeys(Content(ks, name)))
    requires noDup || HasKvs(ks, name) || c.name != name || DistinctKeys(c.pairs)
    ensures var r := PutComm(ks, c, noDup);
            && Then(Content(r, name), Content(ks, name), if c.name == name then c.pairs else [], noDup)
            && (noDup || DistinctKeys(Content(r, name))) && (HasKvs(r, name) <==> HasKvs(ks, name) || c.name == name)
  {
    hide Merged, FindKvs, DistinctKeys, Then;
    var i, r := FindKvs(ks, c.name), PutComm(ks, c, noDup);
    ThenNothing(Content(ks, name), noDup);
    if i < |ks| {
      if c.name == name { MergedThen(ks[i], c.pairs, noDup); }
      MergedName(ks[i], c.pairs, noDup);
      FindSame(ks, r, name);
    } else {
      NewSpace(ks, Kvs(c.name, c.pairs, Unset), name);
      FirstPut(c.pairs, noDup);
    }
  }

  lemma FirstPut(ps: seq<Pair>, noDup: bool)
    ensures Then(ps, [], ps, noDup)
  {
    assert [] + ps == ps;
    assert Overlay([]) + Overlay(ps) == Overlay(ps);
  }

  lemma NewSpace(ks: seq<Kvs>, k: Kvs, name: string)
    requires FindKvs(ks, k.name) == |ks|
    ensures Content(ks + [k], name) == if name == k.name then k.pairs else Content(ks, name)
    ensures Content(ks, k.name) == [] && (HasKvs(ks + [k], name) <==> HasKvs(ks, name) || k.name == name)
  {
    hide FindKvs;
    var i, j := FindKvs(ks, name), FindKvs(ks + [k], name);
    assert i < |ks| ==> (ks + [k])[i].name == name;
    assert j < |ks| ==> ks[j].name == name;
    assert (ks + [k])[|ks|] == k;
  }

  ghost predicate Mentions(msg: seq<Comm>, name: string) {
    msg != [] && (msg[0].name == name || Mentions(msg[1..], name))
  }

  /** The first list under the name, if there is one, has distinct keys. */
  ghost predicate FirstDistinct(msg: seq<Comm>, name: string) {
    msg != [] ==> if msg[0].name == name then DistinctKeys(msg[0].pairs) else FirstDistinct(msg[1..], name)
  }

  lemma {:induction false} PutSetContent(ks: seq<Kvs>, msg: seq<Comm>, noDup: bool, name: string)
    requires AllShaped(ks) && (noDup || DistinctKeys(Content(ks, name)))
    requires noDup || HasKvs(ks, name) || FirstDistinct(msg, name)
    ensures var r := PutSet(ks, msg, noDup);
            && Then(Content(r, name), Content(ks, name), SentIn(msg, name), noDup)
            && (noDup || DistinctKeys(Content(r, name))) && (HasKvs(r, name) <==> HasKvs(ks, name) || Mentions(msg, name))
    decreases |msg|
  {
    hide Content, Then, PutComm, DistinctKeys, HasKvs;
    if msg == [] {
      ThenNothing(Content(ks, name), noDup);
    } else {
      var q := PutComm(ks, msg[0], noDup);
      var first := if msg[0].name == name then msg[0].pairs else [];
      PutCommContent(ks, msg[0], noDup, name);
      PutSetContent(q, msg[1..], noDup, name);
      ThenThen(Content(ks, name), Content(q, name), Content(PutSet(ks, msg, noDup), name),
               first, SentIn(msg[1..], name), noDup);
    }
  }

  lemma MarkSentContent(ks: seq<Kvs>, name: string)
    ensures Content(MarkSent(ks), name) == Content(ks, name) && (HasKvs(MarkSent(ks), name) <==> HasKvs(ks, name))
  {
    hide FindKvs, MarkSent;
    FindSame(ks, MarkSent(ks), name);
  }

  // ---- Whole runs ----------------------------------------------------------

  /** All the lists put under a name, in order. */
  function AllPut(ops: seq<Op>, name: string): seq<Pair> {
    if ops == [] then [] else (if ops[0].Put? then SentIn(ops[0].msg, name) else []) + AllPut(ops[1..], name)
  }

  /** The first list of a run under the name, which makes its space, has distinct keys. */
  ghost predicate MadeDistinct(ops: seq<Op>, name: string) {
    ops != [] ==>
      if ops[0].Put? && Mentions(ops[0].msg, name) then FirstDistinct(ops[0].msg, name)
      else MadeDistinct(ops[1..], name)
  }

  lemma {:induction false} UnmentionedDistinct(msg: seq<Comm>, name: string)
    requires !Mentions(msg, name)
    ensures FirstDistinct(msg, name)
  {
    if msg != [] { UnmentionedDistinct(msg[1..], name); }
  }

  lemma ApplyContent(m: Master, op: Op, noDup: bool, name: string)
    requires AllShaped(m.comms) && (noDup || DistinctKeys(Content(m.comms, name)))
    requires noDup || HasKvs(m.comms, name) || (op.Put? ==> FirstDistinct(op.msg, name))
    ensures var r := Apply(m, op, noDup);
            && Then(Content(r.comms, name), Content(m.comms, name), if op.Put? then SentIn(op.msg, name) else [], noDup)
            && (noDup || DistinctKeys(Content(r.comms, name)))
            && (HasKvs(r.comms, name) <==> HasKvs(m.comms, name) || (op.Put? && Mentions(op.msg, name)))
  {
    hide Content, Then, PutSet, DistinctKeys, HasKvs, SentIn, MarkSent, FirstDistinct, Mentions;
    if op.Put? {
      PutSetContent(m.comms, op.msg, noDup, name);
    } else {
      MarkSentContent(m.comms, name);
      ThenNothing(Content(m.comms, name), noDup);
    }
  }

  lemma {:induction false} RunContent(m: Master, ops: seq<Op>, noDup: bool, name: string)
    requires AllShaped(m.comms) && (noDup || DistinctKeys(Content(m.comms, name)))
    requires noDup || HasKvs(m.comms, name) || MadeDistinct(ops, name)
    ensures Then(Content(Run(m, ops, noDup).comms, name), Content(m.comms, name), AllPut(ops, name), noDup)
    decreases |ops|
  {
    hide Content, Then, Apply, HasKvs, SentIn, FirstDistinct, Mentions, DistinctKeys;
    if ops == [] {
      ThenNothing(Content(m.comms, name), noDup);
    } else {
      var q := Apply(m, ops[0], noDup);
      var first := if ops[0].Put? then SentIn(ops[0].msg, name) else [];
      if ops[0].Put? && !Mentions(ops[0].msg, name) { UnmentionedDistinct(ops[0].msg, name); }
      ApplyContent(m, ops[0], noDup, name);
      RunContent(q, ops[1..], noDup, name);
      ThenThen(Content(m.comms, name), Content(q.comms, name), Content(Run(m, ops, noDup).comms, name),
               first, AllPut(ops[1..], name), noDup);
    }
  }

  /** Duplicate checking off: every space is the lists put under its name, one after the other. */
  lemma MasterIsPuts(ops: seq<Op>, name: string)
    ensures Content(Run(Fresh, ops, true).comms, name) == AllPut(ops, name)
  {
    hide Content, AllPut, Run;
    RunContent(Fresh, ops, true, name);
    NoSpaces(name);
    assert [] + AllPut(ops, name) == AllPut(ops, name);
  }

  /** Duplicates allowed: a space made with distinct keys is the map that those lists, in order, build up. */
  lemma MasterOverlaysPuts(ops: seq<Op>, name: string)
    requires MadeDistinct(ops, name)
    ensures Overlay(Content(Run(Fresh, ops, false).comms, name)) == Overlay(AllPut(ops, name))
  {
    hide Content, AllPut, Run;
    NoSpaces(name);
    RunContent(Fresh, ops, false, name);
    assert Overlay([]) + Overlay(AllPut(ops, name)) == Overlay(AllPut(ops, name));
  }

  lemma NoSpaces(name: string)
    ensures Content([], name) == []
  {
  }

  /** Reading a map built up by a list: the value of the last pair with the key. */
  lemma {:induction false} OverlayReads(ps: seq<Pair>, j: nat)
    requires j < |ps| && forall k | j < k < |ps| :: ps[k].key != ps[j].key
    ensures ps[j].key in Overlay(ps) && Overlay(ps)[ps[j].key] == ps[j].value
    decreases |ps|
  {
    if j < |ps| - 1 { OverlayReads(ps[..|ps| - 1], j); }
  }

  /** What the snapshots of a run that ends in a completed barrier carry is what was put. */
  lemma SnapshotsArePuts(ops: seq<Op>, name: string, noDup: bool)
    requires AllAdmissible(ops, noDup)
    ensures var sent, puts := SentLog(Apply(Run(Fresh, ops, noDup), Complete, noDup).log, name), AllPut(ops, name);
            if noDup then sent == puts else Overlay(sent) == Overlay(puts)
  {
    hide Run, AllPut, SentLog, Overlay, Inv, Apply, Content, FindKvs;
    var m := Run(Fresh, ops, noDup);
    var r := Apply(m, Complete, noDup);
    if noDup {
      MasterIsPuts(ops, name);
    } else {
      AdmissibleMade(ops, name);
      MasterOverlaysPuts(ops, name);
    }
    CompletedContent(m, noDup, name);
    var i := FindKvs(r.comms, name);
    ContentAt(r.comms, name);
    if i < |r.comms| {
      if noDup { SnapshotsAreMaster(ops, i); } else { SnapshotsOverlayMaster(ops, i); }
    } else {
      CompletedInv(ops, noDup);
      NeverSent(r, noDup, name);
    }
  }

  lemma {:induction false} AdmissibleMade(ops: seq<Op>, name: string)
    requires AllAdmissible(ops, false)
    ensures MadeDistinct(ops, name)
  {
    hide DistinctKeys;
    if ops != [] {
      if ops[0].Put? { AdmissibleFirst(ops[0].msg, name); }
      AdmissibleMade(ops[1..], name);
    }
  }

  lemma {:induction false} AdmissibleFirst(msg: seq<Comm>, name: string)
    requires Admissible(msg, false)
    ensures FirstDistinct(msg, name)
  {
    hide DistinctKeys;
    if msg != [] { AdmissibleFirst(msg[1..], name); }
  }

  lemma CompletedInv(ops: seq<Op>, noDup: bool)
    requires AllAdmissible(ops, noDup)
    ensures Inv(Apply(Run(Fresh, ops, noDup), Complete, noDup), noDup)
  {
    RunInv(Fresh, ops, noDup);
    CompleteInv(Run(Fresh, ops, noDup), noDup);
  }

  lemma CompletedContent(m: Master, noDup: bool, name: string)
    requires AllShaped(m.comms)
    ensures Content(Apply(m, Complete, noDup).comms, name) == Content(m.comms, name)
  {
    hide Content, MarkSent;
    MarkSentContent(m.comms, name);
  }

  lemma ContentAt(ks: seq<Kvs>, name: string)
    ensures var i := FindKvs(ks, name);
            Content(ks, name) == if i < |ks| then ks[i].pairs else []
  {
  }

  lemma NeverSent(m: Master, noDup: bool, name: string)
    requires AllShaped(m.comms) && Inv(m, noDup) && FindKvs(m.comms, name) == |m.comms|
    ensures SentLog(m.log, name) == []
  {
    hide SentLog, Replicates, NothingUnsent;
    assert !Named(m.comms, name);
  }

  // ---- Repeated keys in a first list ---------------------------------------

  lemma {:induction false} OverlayHidden(ps: seq<Pair>, j: nat, l: nat, p: Pair)
    requires j < l < |ps| && ps[j].key == p.key == ps[l].key
    ensures Overlay(ps[j := p]) == Overlay(ps)
    decreases |ps|
  {
    var n := |ps| - 1;
    assert ps[j := p][..n] == ps[..n][j := p];
    if l < n {
      OverlayHidden(ps[..n], j, l, p);
    } else {
      OverlayBut(ps[..n], j, p, ps[l].value);
    }
  }

  /** Replacing a pair matters to its own key at most. */
  lemma {:induction false} OverlayBut(ps: seq<Pair>, j: nat, p: Pair, v: string)
    requires j < |ps| && ps[j].key == p.key
    ensures Overlay(ps[j := p])[p.key := v] == Overlay(ps)[p.key := v]
    decreases |ps|
  {
    var n := |ps| - 1;
    if j == n {
      assert ps[j := p][..n] == ps[..n];
    } else {
      assert ps[j := p][..n] == ps[..n][j := p];
      OverlayBut(ps[..n], j, p, v);
      SwapUpdates(Overlay(ps[..n][j := p]), Overlay(ps[..n]), p.key, v, ps[n]);
    }
  }

  lemma SwapUpdates(a: map<string, string>, b: map<string, string>, key: string, v: string, q: Pair)
    requires a[key := v] == b[key := v]
    ensures a[q.key := q.value][key := v] == b[q.key := q.value][key := v]
  {
    forall k | k != key ensures k in a <==> k in b { assert k in a[key := v] <==> k in b[key := v]; }
    forall k | k in a && k != key ensures a[k] == b[k] { assert a[key := v][k] == b[key := v][k]; }
  }

  /** Position l, beyond the first with p's key, is the last with it and has another value. */
  ghost predicate StaleAt(ps: seq<Pair>, p: Pair, l: nat) {
    && FindPair(ps, p.key) < l < |ps| && ps[l].key == p.key && ps[l].value != p.value
    && forall k | l < k < |ps| :: ps[k].key != p.key
  }

  /** The last position with a key. */
  ghost function LastWith(ps: seq<Pair>, key: string): (l: nat)
    requires FindPair(ps, key) < |ps|
    ensures FindPair(ps, key) <= l < |ps| && ps[l].key == key && forall k | l < k < |ps| :: ps[k].key != key
  {
    LastFound(ps, FindPair(ps, key), key)
  }

  ghost function LastFound(ps: seq<Pair>, j: nat, key: string): (l: nat)
    requires j < |ps| && ps[j].key == key
    ensures j <= l < |ps| && ps[l].key == key && forall k | l < k < |ps| :: ps[k].key != key
    decreases |ps|
  {
    var n := |ps| - 1;
    if ps[n].key == key then n else LastFound(ps[..n], j, key)
  }

  /** For any table: the put value is what is read afterwards if and only if no other value of the key stands behind it. */
  lemma MergeOneReplacesIff(t: Table, p: Pair)
    requires |t.pairs| == |t.sent|
    ensures Overlay(MergeOne(t, p, false).pairs) == Overlay(t.pairs)[p.key := p.value]
            <==> !exists l: nat :: StaleAt(t.pairs, p, l)
  {
    hide Overlay, FindPair;
    var ps, j := t.pairs, FindPair(t.pairs, p.key);
    if j == |ps| {
      OverlaySnoc(ps, p);
    } else {
      var l := LastWith(ps, p.key);
      OverlayReads(ps, l);
      OverlayReads(ps[j := p], l);
      if l == j {
        OverlayReplaced(ps, j, p);
      } else {
        OverlayHidden(ps, j, l, p);
        assert ps[l].value != p.value ==> StaleAt(ps, p, l);
      }
    }
  }

  /** A first list with a key twice, then a put of that key: the put is not what is read. */
  lemma RepeatedKeyHidesPut()
    ensures var t := Table([Pair("k", "1"), Pair("k", "2")], [false, false]);
            Overlay(MergeOne(t, Pair("k", "3"), false).pairs) == map["k" := "2"]
  {
    var ps := [Pair("k", "1"), Pair("k", "2")];
    assert FindPair(ps, "k") == 0;
    var q := [Pair("k", "3"), Pair("k", "2")];
    assert ps[0 := Pair("k", "3")] == q && q[..1] == [Pair("k", "3")] && q[..1][..0] == [];
  }
}
