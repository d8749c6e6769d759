/**
 Delta replication by the PMI-1 server: each completed barrier sends only pairs
 not sent before, and yet the snapshots together are the whole master copy.
 */
module PmiReplication {
  import opened PmiClient
  import opened PmiServer

  /** The master copy and the snapshots of the barriers completed so far. */
  datatype Master = Master(comms: seq<Kvs>, updated: bool, log: seq<seq<Comm>>)

  datatype Op = Put(msg: seq<Comm>) | Complete

  function Apply(m: Master, op: Op, noDup: bool): (r: Master)
    requires AllShaped(m.comms)
    ensures AllShaped(r.comms)
  {
    match op
    case Put(msg) => Master(PutSet(m.comms, msg, noDup), true, m.log)
    case Complete =>
      if m.updated then Master(MarkSent(m.comms), false, m.log + [Snapshot(m.comms)])
      else Master(m.comms, false, m.log + [[]])
  }

  function Run(m: Master, ops: seq<Op>, noDup: bool): (r: Master)
    requires AllShaped(m.comms)
    ensures AllShaped(r.comms)
    decreases |ops|
  {
    if ops == [] then m else Run(Apply(m, ops[0], noDup), ops[1..], noDup)
  }

  const Fresh := Master([], false, [])

  // ---- What the tasks have been sent ---------------------------------------

  function SentIn(s: seq<Comm>, name: string): seq<Pair> {
    if s == [] then [] else (if s[0].name == name then s[0].pairs else []) + SentIn(s[1..], name)
  }

  function SentLog(log: seq<seq<Comm>>, name: string): seq<Pair> {
    if log == [] then [] else SentIn(log[0], name) + SentLog(log[1..], name)
  }

  lemma {:induction false} SentLogSnoc(log: seq<seq<Comm>>, s: seq<Comm>, name: string)
    ensures SentLog(log + [s], name) == SentLog(log, name) + SentIn(s, name)
  {
    if log == [] {
      assert (log + [s])[1..] == [];
    } else {
      assert (log + [s])[1..] == log[1..] + [s];
      SentLogSnoc(log[1..], s, name);
    }
  }

  ghost predicate DistinctNames(ks: seq<Kvs>) {
    forall a, b | 0 <= a < b < |ks| :: ks[a].name != ks[b].name
  }

  ghost predicate Named(ks: seq<Kvs>, name: string) { exists i | 0 <= i < |ks| :: ks[i].name == name }

  lemma {:induction false} SentInAbsent(s: seq<Comm>, name: string)
    requires forall i | 0 <= i < |s| :: s[i].name != name
    ensures SentIn(s, name) == []
  {
    if s != [] { SentInAbsent(s[1..], name); }
  }

  lemma {:induction false} SentInAt(s: seq<Comm>, i: nat)
    requires i < |s| && forall a, b | 0 <= a < b < |s| :: s[a].name != s[b].name
    ensures SentIn(s, s[i].name) == s[i].pairs
  {
    if i == 0 {
      SentInAbsent(s[1..], s[0].name);
    } else {
      SentInAt(s[1..], i - 1);
    }
  }

  // ---- Invariants of every run ---------------------------------------------

  ghost predicate NothingUnsent(k: Kvs)
    requires Shaped(k)
  {
    forall j | 0 <= j < |k.pairs| :: SentOf(k)[j]
  }

  /** Duplicate checking off: the sent pairs are a prefix, and they are what was sent, in order. */
  ghost predicate PrefixSent(k: Kvs, log: seq<seq<Comm>>, n: nat)
    requires Shaped(k)
  {
    && n <= |k.pairs|
    && (forall j | 0 <= j < |k.pairs| :: SentOf(k)[j] == (j < n))
    && SentLog(log, k.name) == k.pairs[..n]
  }

  function Overlay(ps: seq<Pair>): map<string, string> {
    if ps == [] then map[] else Overlay(ps[..|ps| - 1])[ps[|ps| - 1].key := ps[|ps| - 1].value]
  }

  /** Duplicates allowed: keys are distinct and every sent pair is what a reader of the log has for its key. */
  ghost predicate OverlaySent(k: Kvs, log: seq<seq<Comm>>)
    requires Shaped(k)
  {
    var m := Overlay(SentLog(log, k.name));
    && DistinctKeys(k.pairs)
    && (forall j | 0 <= j < |k.pairs| && SentOf(k)[j] :: k.pairs[j].key in m && m[k.pairs[j].key] == k.pairs[j].value)
    && (forall key | key in m :: HasKey(k.pairs, key))
  }

  ghost predicate Replicates(k: Kvs, log: seq<seq<Comm>>, noDup: bool)
    requires Shaped(k)
  {
    if noDup then exists n: nat :: PrefixSent(k, log, n) else OverlaySent(k, log)
  }

  ghost predicate Inv(m: Master, noDup: bool)
    requires AllShaped(m.comms)
  {
    && DistinctNames(m.comms)
    && (forall name | !Named(m.comms, name) :: SentLog(m.log, name) == [])
    && (forall i | 0 <= i < |m.comms| :: Replicates(m.comms[i], m.log, noDup))
    && (!m.updated ==> forall i | 0 <= i < |m.comms| :: NothingUnsent(m.comms[i]))
  }

  /** In duplicate mode every list of a put must have distinct keys. */
  ghost predicate Admissible(msg: seq<Comm>, noDup: bool) {
    noDup || forall i | 0 <= i < |msg| :: DistinctKeys(msg[i].pairs)
  }

  // ---- Puts ----------------------------------------------------------------

  lemma {:induction false} AppendAll(t: Table, ps: seq<Pair>)
    requires |t.pairs| == |t.sent|
    ensures MergeAll(t, ps, true) == Table(t.pairs + ps, t.sent + Falses(|ps|))
    decreases |ps|
  {
    if ps == [] {
      assert t.pairs + ps == t.pairs && t.sent + Falses(0) == t.sent;
    } else {
      AppendAll(MergeOne(t, ps[0], true), ps[1..]);
      assert t.pairs + [ps[0]] + ps[1..] == t.pairs + ps;
      assert t.sent + [false] + Falses(|ps| - 1) == t.sent + Falses(|ps|);
    }
  }

  /** What OverlaySent says about a table, m being the reader's map. */
  ghost predicate TableOverlay(t: Table, m: map<string, string>) {
    && |t.pairs| == |t.sent| && DistinctKeys(t.pairs)
    && (forall j | 0 <= j < |t.pairs| && t.sent[j] :: t.pairs[j].key in m && m[t.pairs[j].key] == t.pairs[j].value)
    && (forall key | key in m :: HasKey(t.pairs, key))
  }

  lemma MergeOneOverlay(t: Table, p: Pair, m: map<string, string>)
    requires TableOverlay(t, m)
    ensures TableOverlay(MergeOne(t, p, false), m)
  {
    hide FindPair;
    var r, j := MergeOne(t, p, false), FindPair(t.pairs, p.key);
    assert r.pairs[j] == p && forall x | 0 <= x < |t.pairs| :: r.pairs[x].key == t.pairs[x].key;
    forall key | key in m ensures HasKey(r.pairs, key) {
      var x := KeyIndex(t.pairs, key);
      assert r.pairs[x].key == key;
    }
    forall x | 0 <= x < |r.pairs| && r.sent[x]
      ensures r.pairs[x].key in m && m[r.pairs[x].key] == r.pairs[x].value
    {
      assert r.pairs[x] == t.pairs[x] && t.sent[x];
    }
  }

  lemma {:induction false} MergeAllOverlay(t: Table, ps: seq<Pair>, m: map<string, string>)
    requires TableOverlay(t, m)
    ensures TableOverlay(MergeAll(t, ps, false), m)
    decreases |ps|
  {
    if ps != [] {
      MergeOneOverlay(t, ps[0], m);
      MergeAllOverlay(MergeOne(t, ps[0], false), ps[1..], m);
    }
  }

  lemma MergedReplicates(k: Kvs, ps: seq<Pair>, log: seq<seq<Comm>>, noDup: bool)
    requires Shaped(k) && Replicates(k, log, noDup)
    ensures Replicates(Merged(k, ps, noDup), log, noDup)
  {
    var r := Merged(k, ps, noDup);
    if noDup {
      var n: nat :| PrefixSent(k, log, n);
      AppendAll(TableOf(k), ps);
      assert r.pairs[..n] == k.pairs[..n];
      assert |k.pairs| > 0 ==> SentOf(k)[0] == (0 < n);
      assert PrefixSent(r, log, n);
    } else {
      MergeAllOverlay(TableOf(k), ps, Overlay(SentLog(log, k.name)));
    }
  }

  lemma PutCommInv(m: Master, c: Comm, noDup: bool)
    requires AllShaped(m.comms) && Inv(m, noDup) && (noDup || DistinctKeys(c.pairs))
    ensures Inv(Master(PutComm(m.comms, c, noDup), true, m.log), noDup)
  {
    hide Merged, Replicates, FindKvs;
    var ks := PutComm(m.comms, c, noDup);
    var i := FindKvs(m.comms, c.name);
    if i < |m.comms| {
      MergedReplicates(m.comms[i], c.pairs, m.log, noDup);
      MergedName(m.comms[i], c.pairs, noDup);
      assert forall x | 0 <= x < |ks| :: ks[x].name == m.comms[x].name;
    } else {
      var k := Kvs(c.name, c.pairs, Unset);
      assert !Named(m.comms, c.name);
      NewReplicates(k, m.log, noDup);
      assert ks[i] == k;
    }
    forall name | !Named(ks, name) ensures SentLog(m.log, name) == [] {
      assert forall x | 0 <= x < |m.comms| :: m.comms[x].name == ks[x].name;
      assert !Named(m.comms, name);
    }
  }

  lemma MergedName(k: Kvs, ps: seq<Pair>, noDup: bool)
    requires Shaped(k)
    ensures Merged(k, ps, noDup).name == k.name
  {
  }

  lemma NewReplicates(k: Kvs, log: seq<seq<Comm>>, noDup: bool)
    requires k.sent.Unset? && SentLog(log, k.name) == [] && (noDup || DistinctKeys(k.pairs))
    ensures Replicates(k, log, noDup)
  {
    if noDup { assert PrefixSent(k, log, 0); }
  }

  lemma {:induction false} PutSetInv(m: Master, msg: seq<Comm>, noDup: bool)
    requires AllShaped(m.comms) && Inv(m, noDup) && Admissible(msg, noDup)
    ensures Inv(Master(PutSet(m.comms, msg, noDup), true, m.log), noDup)
    decreases |msg|
  {
    if msg != [] {
      PutCommInv(m, msg[0], noDup);
      PutSetInv(Master(PutComm(m.comms, msg[0], noDup), true, m.log), msg[1..], noDup);
    }
  }

  // ---- Completed barriers --------------------------------------------------

  lemma {:induction false} UnsentSuffix(ps: seq<Pair>, f: seq<bool>, n: nat)
    requires |ps| == |f| && n <= |ps| && forall j | 0 <= j < |ps| :: f[j] == (j < n)
    ensures Unsent(ps, f) == ps[n..]
  {
    if ps != [] {
      if n > 0 {
        UnsentSuffix(ps[1..], f[1..], n - 1);
      } else {
        UnsentSuffix(ps[1..], f[1..], 0);
      }
    }
  }

  lemma {:induction false} OverlayAppend(a: seq<Pair>, b: seq<Pair>)
    ensures Overlay(a + b) == Overlay(a) + Overlay(b)
    decreases |b|
  {
    if b == [] {
      assert a + b == a;
    } else {
      assert (a + b)[..|a + b| - 1] == a + b[..|b| - 1];
      OverlayAppend(a, b[..|b| - 1]);
    }
  }

  ghost predicate UnsentAt(ps: seq<Pair>, f: seq<bool>, key: string)
    requires |ps| == |f|
  {
    exists j | 0 <= j < |ps| :: !f[j] && ps[j].key == key
  }

  lemma UnsentAtSnoc(ps: seq<Pair>, f: seq<bool>, n: nat, key: string)
    requires |ps| == |f| == n + 1
    ensures UnsentAt(ps, f, key) <==> UnsentAt(ps[..n], f[..n], key) || (!f[n] && ps[n].key == key)
  {
    if UnsentAt(ps[..n], f[..n], key) {
      var j :| 0 <= j < n && !f[..n][j] && ps[..n][j].key == key;
      assert !f[j] && ps[j].key == key;
    }
    if UnsentAt(ps, f, key) {
      var j :| 0 <= j < |ps| && !f[j] && ps[j].key == key;
      if j < n { assert !f[..n][j] && ps[..n][j].key == key; }
    }
  }

  lemma UnsentKey(ps: seq<Pair>, f: seq<bool>, j: nat)
    requires |ps| == |f| && j < |ps| && DistinctKeys(ps) && UnsentAt(ps, f, ps[j].key)
    ensures !f[j]
  {
    var x :| 0 <= x < |ps| && !f[x] && ps[x].key == ps[j].key;
  }

  /** m holds exactly the unsent pairs. */
  ghost predicate MapsUnsent(ps: seq<Pair>, f: seq<bool>, m: map<string, string>)
    requires |ps| == |f|
  {
    && (forall key | key in m :: UnsentAt(ps, f, key))
    && (forall j | 0 <= j < |ps| && !f[j] :: ps[j].key in m && m[ps[j].key] == ps[j].value)
  }

  /** The unsent part of a list with distinct keys, as a map. */
  lemma {:induction false} OverlayUnsent(ps: seq<Pair>, f: seq<bool>)
    requires |ps| == |f| && DistinctKeys(ps)
    ensures MapsUnsent(ps, f, Overlay(Unsent(ps, f)))
    decreases |ps|
  {
    if ps == [] {
      assert Unsent(ps, f) == [];
    } else {
      hide *;
      var n := |ps| - 1;
      var u := Unsent(ps[..n], f[..n]);
      DistinctPrefix(ps, n);
      OverlayUnsent(ps[..n], f[..n]);
      UnsentSnoc(ps, f, n);
      assert ps[..n + 1] == ps && f[..n + 1] == f && u + [] == u;
      OverlaySnoc(u, ps[n]);
      MapsUnsentSnoc(ps, f, n, Overlay(u));
    }
  }

  lemma DistinctPrefix(ps: seq<Pair>, n: nat)
    requires n <= |ps| && DistinctKeys(ps)
    ensures DistinctKeys(ps[..n])
  {
  }

  lemma OverlaySnoc(u: seq<Pair>, p: Pair)
    ensures Overlay(u + [p]) == Overlay(u)[p.key := p.value]
  {
    assert (u + [p])[..|u|] == u;
  }

  lemma MapsUnsentSnoc(ps: seq<Pair>, f: seq<bool>, n: nat, m: map<string, string>)
    requires |ps| == |f| == n + 1 && DistinctKeys(ps) && MapsUnsent(ps[..n], f[..n], m)
    ensures MapsUnsent(ps, f, if f[n] then m else m[ps[n].key := ps[n].value])
  {
    hide UnsentAt;
    var m' := if f[n] then m else m[ps[n].key := ps[n].value];
    forall key | key in m' ensures UnsentAt(ps, f, key) { UnsentAtSnoc(ps, f, n, key); }
    forall j | 0 <= j < |ps| && !f[j] ensures ps[j].key in m' && m'[ps[j].key] == ps[j].value {
      if j < n { assert ps[..n][j] == ps[j] && f[..n][j] == f[j]; }
    }
  }

  lemma AllSentOverlay(ps: seq<Pair>, f: seq<bool>, m: map<string, string>)
    requires TableOverlay(Table(ps, f), m)
    ensures TableOverlay(Table(ps, Trues(|ps|)), m + Overlay(Unsent(ps, f)))
  {
    hide Overlay, Unsent;
    OverlayUnsent(ps, f);
    var u := Overlay(Unsent(ps, f));
    forall key | key in m + u ensures HasKey(ps, key) { }
    forall j | 0 <= j < |ps| ensures ps[j].key in m + u && (m + u)[ps[j].key] == ps[j].value {
      if ps[j].key in u { UnsentKey(ps, f, j); }
    }
  }

  lemma SnapshotReplicates(k: Kvs, log: seq<seq<Comm>>, s: seq<Comm>, noDup: bool)
    requires Shaped(k) && Replicates(k, log, noDup)
    requires SentIn(s, k.name) == Unsent(k.pairs, SentOf(k))
    ensures Replicates(Kvs(k.name, k.pairs, Flags(Trues(|k.pairs|))), log + [s], noDup)
  {
    hide SentLog, SentIn, Unsent, Overlay, DistinctKeys, HasKey;
    var r := Kvs(k.name, k.pairs, Flags(Trues(|k.pairs|)));
    SentLogSnoc(log, s, k.name);
    if noDup {
      var n: nat :| PrefixSent(k, log, n);
      UnsentSuffix(k.pairs, SentOf(k), n);
      assert k.pairs[..n] + k.pairs[n..] == k.pairs == k.pairs[..|k.pairs|];
      assert PrefixSent(r, log + [s], |k.pairs|);
    } else {
      AllSentOverlay(k.pairs, SentOf(k), Overlay(SentLog(log, k.name)));
      OverlayAppend(SentLog(log, k.name), Unsent(k.pairs, SentOf(k)));
    }
  }

  lemma CompleteInv(m: Master, noDup: bool)
    requires AllShaped(m.comms) && Inv(m, noDup)
    ensures Inv(Apply(m, Complete, noDup), noDup)
    ensures SentAll(Apply(m, Complete, noDup))
  {
    hide Replicates, Unsent, SentLog, SentIn;
    var r := Apply(m, Complete, noDup);
    var s := if m.updated then Snapshot(m.comms) else [];
    assert r.log == m.log + [s];
    forall i | 0 <= i < |m.comms| ensures Replicates(r.comms[i], r.log, noDup) {
      if m.updated {
        SentInAt(s, i);
        SnapshotReplicates(m.comms[i], m.log, s, noDup);
      } else {
        SentLogSnoc(m.log, s, m.comms[i].name);
        SentInAbsent(s, m.comms[i].name);
        SameLogReplicates(m.comms[i], m.log, r.log, noDup);
      }
    }
    forall name | !Named(r.comms, name) ensures SentLog(r.log, name) == [] {
      assert forall i | 0 <= i < |m.comms| :: m.comms[i].name == r.comms[i].name;
      assert !Named(m.comms, name);
      SentLogSnoc(m.log, s, name);
      SentInAbsent(s, name);
    }
  }

  lemma SameLogReplicates(k: Kvs, log: seq<seq<Comm>>, log': seq<seq<Comm>>, noDup: bool)
    requires Shaped(k) && Replicates(k, log, noDup) && SentLog(log', k.name) == SentLog(log, k.name)
    ensures Replicates(k, log', noDup)
  {
    if noDup {
      var n: nat :| PrefixSent(k, log, n);
      assert PrefixSent(k, log', n);
    }
  }

  ghost predicate SentAll(m: Master)
    requires AllShaped(m.comms)
  {
    forall i | 0 <= i < |m.comms| :: NothingUnsent(m.comms[i])
  }

  // ---- Whole runs ----------------------------------------------------------

  ghost predicate AllAdmissible(ops: seq<Op>, noDup: bool) {
    forall i | 0 <= i < |ops| && ops[i].Put? :: Admissible(ops[i].msg, noDup)
  }

  lemma {:induction false} RunInv(m: Master, ops: seq<Op>, noDup: bool)
    requires AllShaped(m.comms) && Inv(m, noDup) && AllAdmissible(ops, noDup)
    ensures Inv(Run(m, ops, noDup), noDup)
    decreases |ops|
  {
    if ops != [] {
      match ops[0] {
        case Put(msg) => PutSetInv(m, msg, noDup);
        case Complete => CompleteInv(m, noDup);
      }
      RunInv(Apply(m, ops[0], noDup), ops[1..], noDup);
    }
  }

  /** Without duplicate checking, the snapshots of a run that ends in a completed barrier are the master lists themselves. */
  lemma SnapshotsAreMaster(ops: seq<Op>, i: nat)
    requires i < |Apply(Run(Fresh, ops, true), Complete, true).comms|
    ensures var m := Apply(Run(Fresh, ops, true), Complete, true);
            DistinctNames(m.comms) && SentLog(m.log, m.comms[i].name) == m.comms[i].pairs
  {
    RunInv(Fresh, ops, true);
    var m := Run(Fresh, ops, true);
    CompleteInv(m, true);
    var r := Apply(m, Complete, true);
    assert Replicates(r.comms[i], r.log, true);
    var n: nat :| PrefixSent(r.comms[i], r.log, n);
    assert NothingUnsent(r.comms[i]);
    var k := r.comms[i];
    UnsentSuffix(k.pairs, SentOf(k), n);
    UnsentSuffix(k.pairs, SentOf(k), |k.pairs|);
    assert r.comms[i].pairs[..n] == r.comms[i].pairs;
  }

  /** With duplicates allowed, overlaying the snapshots gives the master map. */
  lemma SnapshotsOverlayMaster(ops: seq<Op>, i: nat)
    requires AllAdmissible(ops, false)
    requires i < |Apply(Run(Fresh, ops, false), Complete, false).comms|
    ensures var m := Apply(Run(Fresh, ops, false), Complete, false);
            && DistinctNames(m.comms) && DistinctKeys(m.comms[i].pairs)
            && Overlay(SentLog(m.log, m.comms[i].name)) == Overlay(m.comms[i].pairs)
  {
    RunInv(Fresh, ops, false);
    var m := Run(Fresh, ops, false);
    CompleteInv(m, false);
    var r := Apply(m, Complete, false);
    assert Replicates(r.comms[i], r.log, false);
    assert NothingUnsent(r.comms[i]);
    WholeOverlay(r.comms[i], r.log);
  }

  lemma WholeOverlay(k: Kvs, log: seq<seq<Comm>>)
    requires Shaped(k) && NothingUnsent(k) && OverlaySent(k, log)
    ensures Overlay(SentLog(log, k.name)) == Overlay(k.pairs)
  {
    var a, b := Overlay(SentLog(log, k.name)), Overlay(k.pairs);
    var none := Falses(|k.pairs|);
    UnsentSuffix(k.pairs, none, 0);
    assert k.pairs[0..] == k.pairs;
    OverlayUnsent(k.pairs, none);
    hide Overlay, SentLog, UnsentAt, HasKey;
    forall key ensures key in a <==> key in b {
      if key in a { var j := KeyIndex(k.pairs, key); }
      if key in b { var j := UnsentIndex(k.pairs, none, key); }
    }
    forall key | key in a ensures a[key] == b[key] {
      var j := KeyIndex(k.pairs, key);
    }
  }

  lemma UnsentIndex(ps: seq<Pair>, f: seq<bool>, key: string) returns (j: nat)
    requires |ps| == |f| && UnsentAt(ps, f, key)
    ensures j < |ps| && ps[j].key == key
  {
    j :| 0 <= j < |ps| && !f[j] && ps[j].key == key;
  }

  /** At any time, when nothing is flagged as updated nothing is left to send. */
  lemma NotUpdatedMeansAllSent(ops: seq<Op>, noDup: bool)
    requires AllAdmissible(ops, noDup)
    ensures var m := Run(Fresh, ops, noDup);
            !m.updated ==> SentAll(m)
  {
    RunInv(Fresh, ops, noDup);
  }
}
