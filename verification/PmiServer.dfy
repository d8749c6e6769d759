/**
 The master copy of the key-value spaces and the barrier table inside srun
 (src/api/pmi_server.c).
 */
module PmiServer {
  import opened PmiClient
  import opened Seqs

  /** `kvs_key_sent` is NULL until the first snapshot. */
  datatype SentFlags = Unset | Flags(f: seq<bool>)

  datatype Kvs = Kvs(name: string, pairs: seq<Pair>, sent: SentFlags)

  ghost predicate Shaped(k: Kvs) { k.sent.Flags? ==> |k.sent.f| == |k.pairs| }

  ghost predicate AllShaped(ks: seq<Kvs>) { forall i | 0 <= i < |ks| :: Shaped(ks[i]) }

  function Falses(n: nat): (f: seq<bool>)
    ensures |f| == n && forall j | 0 <= j < n :: !f[j]
  {
    seq(n, j => false)
  }

  /** The flags, an absent table counting as all unsent. */
  function SentOf(k: Kvs): (f: seq<bool>)
    requires Shaped(k)
    ensures |f| == |k.pairs|
  {
    if k.sent.Unset? then Falses(|k.pairs|) else k.sent.f
  }

  function FindPair(ps: seq<Pair>, key: string): (j: nat)
    ensures j <= |ps| && (j < |ps| ==> ps[j].key == key)
    ensures forall k | 0 <= k < j :: ps[k].key != key
  {
    FirstIndex(ps, (p: Pair) => p.key == key)
  }

  function FindKvs(ks: seq<Kvs>, name: string): (i: nat)
    ensures i <= |ks| && (i < |ks| ==> ks[i].name == name)
    ensures forall k | 0 <= k < i :: ks[k].name != name
  {
    FirstIndex(ks, (k: Kvs) => k.name == name)
  }

  // ---- Merging puts --------------------------------------------------------

  datatype Table = Table(pairs: seq<Pair>, sent: seq<bool>)

  /** One pair: appended unsent, or (duplicates allowed, key known) overwritten and unsent again. */
  function MergeOne(t: Table, p: Pair, noDup: bool): (r: Table)
    requires |t.pairs| == |t.sent|
    ensures |r.pairs| == |r.sent|
  {
    var j := FindPair(t.pairs, p.key);
    if noDup || j == |t.pairs| then Table(t.pairs + [p], t.sent + [false])
    else Table(t.pairs[j := p], t.sent[j := false])
  }

  function MergeAll(t: Table, ps: seq<Pair>, noDup: bool): (r: Table)
    requires |t.pairs| == |t.sent|
    ensures |r.pairs| == |r.sent|
    decreases |ps|
  {
    if ps == [] then t else MergeAll(MergeOne(t, ps[0], noDup), ps[1..], noDup)
  }

  function TableOf(k: Kvs): (t: Table)
    requires Shaped(k)
    ensures |t.pairs| == |t.sent|
  {
    Table(k.pairs, SentOf(k))
  }

  function Merged(k: Kvs, ps: seq<Pair>, noDup: bool): (r: Kvs)
    requires Shaped(k)
    ensures Shaped(r)
  {
    var t := MergeAll(TableOf(k), ps, noDup);
    Kvs(k.name, t.pairs, if k.sent.Unset? then Unset else Flags(t.sent))
  }

  function PutComm(ks: seq<Kvs>, c: Comm, noDup: bool): (r: seq<Kvs>)
    requires AllShaped(ks)
    ensures AllShaped(r)
  {
    var i := FindKvs(ks, c.name);
    if i < |ks| then ks[i := Merged(ks[i], c.pairs, noDup)] else ks + [Kvs(c.name, c.pairs, Unset)]
  }

  function PutSet(ks: seq<Kvs>, msg: seq<Comm>, noDup: bool): (r: seq<Kvs>)
    requires AllShaped(ks)
    ensures AllShaped(r)
    decreases |msg|
  {
    if msg == [] then ks else PutSet(PutComm(ks, msg[0], noDup), msg[1..], noDup)
  }

  // ---- Snapshots -----------------------------------------------------------

  /** The pairs not sent yet, in order. */
  function Unsent(ps: seq<Pair>, f: seq<bool>): seq<Pair>
    requires |ps| == |f|
  {
    if ps == [] then [] else (if f[0] then [] else [ps[0]]) + Unsent(ps[1..], f[1..])
  }

  function Snapshot(ks: seq<Kvs>): (s: seq<Comm>)
    requires AllShaped(ks)
    ensures |s| == |ks|
    ensures forall i | 0 <= i < |ks| :: s[i] == Comm(ks[i].name, Unsent(ks[i].pairs, SentOf(ks[i])))
  {
    seq(|ks|, i requires 0 <= i < |ks| && AllShaped(ks) => Comm(ks[i].name, Unsent(ks[i].pairs, SentOf(ks[i]))))
  }

  function Trues(n: nat): (f: seq<bool>)
    ensures |f| == n && forall j | 0 <= j < n :: f[j]
  {
    seq(n, j => true)
  }

  function MarkSent(ks: seq<Kvs>): (r: seq<Kvs>)
    ensures |r| == |ks| && AllShaped(r)
    ensures forall i | 0 <= i < |ks| :: r[i] == Kvs(ks[i].name, ks[i].pairs, Flags(Trues(|ks[i].pairs|)))
  {
    seq(|ks|, i requires 0 <= i < |ks| => Kvs(ks[i].name, ks[i].pairs, Flags(Trues(|ks[i].pairs|))))
  }

  // ---- Barrier table -------------------------------------------------------

  datatype Slot = Slot(port: nat, host: string)

  datatype Request = Request(size: nat, task: nat, port: nat, host: string)

  datatype Barrier = Barrier(cnt: nat, resp: nat, slots: seq<Slot>)

  const NoBarrier := Barrier(0, 0, [])

  datatype Arrival = Arrival(barrier: Barrier, accepted: bool, fired: bool, slots: seq<Slot>)

  /** One barrier request; `slots` is what is handed to the transmitting agent when the barrier fires. */
  function Arrive(b: Barrier, r: Request): Arrival
    requires |b.slots| == b.cnt
  {
    if r.size == 0 then Arrival(b, false, false, [])
    else if b.cnt != 0 && b.cnt != r.size then Arrival(b, false, false, [])
    else
      var b1 := if b.cnt == 0 then Barrier(r.size, b.resp, seq(r.size, i => Slot(0, ""))) else b;
      if r.task >= b1.cnt then Arrival(b1, false, false, [])
      else
        var resp := if b1.slots[r.task].port == 0 then b1.resp + 1 else b1.resp;
        var slots := b1.slots[r.task := Slot(r.port, r.host)];
        if resp == b1.cnt then Arrival(NoBarrier, true, true, slots)
        else Arrival(Barrier(b1.cnt, resp, slots), true, false, [])
  }

  datatype Transmission = Transmission(slots: seq<Slot>, snapshot: seq<Comm>)

  // ---- The server as it runs -----------------------------------------------

  ghost predicate HasKey(ps: seq<Pair>, key: string) {
    exists j | 0 <= j < |ps| :: ps[j].key == key
  }

  /** A key that is new to the table and occurs twice in the put. */
  ghost predicate RepeatsNewKey(ps: seq<Pair>, puts: seq<Pair>) {
    exists a, b | 0 <= a < b < |puts| :: puts[a].key == puts[b].key && !HasKey(ps, puts[a].key)
  }

  /** Merging the list would clear a flag beyond the flag table of its space. */
  ghost predicate ListOverruns(ks: seq<Kvs>, c: Comm, noDup: bool) {
    var i := FindKvs(ks, c.name);
    i < |ks| && ks[i].sent.Flags? && !noDup && RepeatsNewKey(ks[i].pairs, c.pairs)
  }

  /** Some list of the put does, given the lists before it. */
  ghost predicate Overruns(ks: seq<Kvs>, msg: seq<Comm>, noDup: bool)
    requires AllShaped(ks)
    decreases |msg|
  {
    msg != [] && (ListOverruns(ks, msg[0], noDup) || Overruns(PutComm(ks, msg[0], noDup), msg[1..], noDup))
  }

  /** A put of a new key twice into a space that has been sent once. */
  lemma RepeatOverruns()
    ensures ListOverruns([Kvs("s", [Pair("a", "1")], Flags([true]))], Comm("s", [Pair("k", "v"), Pair("k", "v")]), false)
  {
    var ks, c := [Kvs("s", [Pair("a", "1")], Flags([true]))], Comm("s", [Pair("k", "v"), Pair("k", "v")]);
    assert FindKvs(ks, "s") == 0;
    assert c.pairs[0].key == c.pairs[1].key && !HasKey(ks[0].pairs, c.pairs[0].key);
  }

  lemma {:induction false} NoDupNeverOverruns(ks: seq<Kvs>, msg: seq<Comm>)
    requires AllShaped(ks)
    ensures !Overruns(ks, msg, true)
    decreases |msg|
  {
    hide PutComm;
    if msg != [] { NoDupNeverOverruns(PutComm(ks, msg[0], true), msg[1..]); }
  }

  class Server {
    var comms: seq<Kvs>
    var updated: bool
    var barrier: Barrier
    const noDup: bool

    ghost predicate Valid()
      reads this
    {
      AllShaped(comms) && |barrier.slots| == barrier.cnt
    }

    constructor (noDup: bool)
      ensures Valid() && comms == [] && !updated && barrier == NoBarrier && this.noDup == noDup
    {
      this.noDup := noDup;
      comms, updated, barrier := [], false, NoBarrier;
    }

    /** _find_kvs_by_name */
    method FindByName(name: string) returns (i: nat)
      requires Valid()
      ensures i == FindKvs(comms, name)
    {
      i := 0;
      while i < |comms| && comms[i].name != name
        invariant 0 <= i <= |comms|
        invariant forall k | 0 <= k < i :: comms[k].name != name
      {
        i := i + 1;
      }
    }

    /** _merge_named_kvs on the space at index i. */
    method MergeNamed(i: nat, puts: seq<Pair>) returns (overrun: bool)
      requires Valid() && i < |comms|
      modifies this`comms
      ensures Valid() && comms == old(comms)[i := Merged(old(comms)[i], puts, noDup)]
      ensures overrun <==> old(comms)[i].sent.Flags? && !noDup && RepeatsNewKey(old(comms)[i].pairs, puts)
    {
      hide Merged, RepeatsNewKey;
      var k;
      k, overrun := MergeLoop(comms[i], puts, noDup);
      comms := comms[i := k];
    }

    /** One list of a put: merged into the space of that name, or taken over as a new one. */
    method PutOne(c: Comm) returns (overrun: bool)
      requires Valid()
      modifies this`comms
      ensures Valid() && comms == PutComm(old(comms), c, noDup)
      ensures overrun <==> ListOverruns(old(comms), c, noDup)
    {
      hide Merged, RepeatsNewKey;
      overrun := false;
      var j := FindByName(c.name);
      if j < |comms| {
        overrun := MergeNamed(j, c.pairs);
      } else {
        comms := comms + [Kvs(c.name, c.pairs, Unset)];
      }
    }

    /** pmi_kvs_put */
    method KvsPut(msg: seq<Comm>) returns (overrun: bool)
      requires Valid()
      modifies this`comms, this`updated
      ensures Valid() && comms == PutSet(old(comms), msg, noDup) && updated
      ensures overrun <==> Overruns(old(comms), msg, noDup)
    {
      hide PutComm, ListOverruns;
      overrun := false;
      var i := 0;
      assert msg[0..] == msg;
      while i < |msg|
        invariant 0 <= i <= |msg| && Valid()
        invariant PutSet(comms, msg[i..], noDup) == PutSet(old(comms), msg, noDup)
        invariant Overruns(old(comms), msg, noDup) <==> overrun || Overruns(comms, msg[i..], noDup)
      {
        assert msg[i..][1..] == msg[i + 1..];
        var o := PutOne(msg[i]);
        overrun := overrun || o;
        i := i + 1;
      }
      assert msg[i..] == [];
      updated := true;
    }

    /** _kvs_comm_dup */
    method CommDup() returns (s: seq<Comm>)
      requires Valid()
      modifies this`comms
      ensures Valid() && s == Snapshot(old(comms)) && comms == MarkSent(old(comms))
    {
      s := [];
      ghost var ks := comms;
      var i := 0;
      while i < |comms|
        invariant 0 <= i <= |comms| == |ks| && |s| == i
        invariant forall k | 0 <= k < i :: s[k] == Snapshot(ks)[k] && comms[k] == MarkSent(ks)[k]
        invariant forall k | i <= k < |ks| :: comms[k] == ks[k]
      {
        hide Unsent;
        var k := comms[i];
        var out, f := TakeUnsent(k);
        comms := comms[i := Kvs(k.name, k.pairs, Flags(f))];
        s := s + [Comm(k.name, out)];
        i := i + 1;
      }
      assert s == Snapshot(ks) && comms == MarkSent(ks);
    }

    /** pmi_kvs_get; when the last task arrives, _kvs_xmit_tasks up to starting the agent. */
    method KvsGet(r: Request) returns (accepted: bool, fired: bool, x: Transmission)
      requires Valid()
      modifies this
      ensures Valid()
      ensures var a := Arrive(old(barrier), r);
              && barrier == a.barrier && accepted == a.accepted && fired == a.fired
              && (fired ==> x == Transmission(a.slots, if old(updated) then Snapshot(old(comms)) else []))
              && comms == (if fired && old(updated) then MarkSent(old(comms)) else old(comms))
              && updated == (old(updated) && !fired)
    {
      x := Transmission([], []);
      if r.size == 0 { return false, false, x; }
      if barrier.cnt == 0 {
        barrier := Barrier(r.size, barrier.resp, seq(r.size, i => Slot(0, "")));
      } else if barrier.cnt != r.size {
        return false, false, x;
      }
      if r.task >= barrier.cnt { return false, false, x; }
      var resp := barrier.resp;
      if barrier.slots[r.task].port == 0 { resp := resp + 1; }
      barrier := Barrier(barrier.cnt, resp, barrier.slots[r.task := Slot(r.port, r.host)]);
      accepted, fired := true, barrier.resp == barrier.cnt;
      if fired {
        var slots := barrier.slots;
        barrier := NoBarrier;
        var s := [];
        if updated {
          s := CommDup();
          updated := false;
        }
        x := Transmission(slots, s);
      }
    }
  }

  /** The flag table, still n long, against the flags of the whole list. */
  ghost predicate Tracks(sent: SentFlags, n: nat, full: seq<bool>) {
    if sent.Unset? then full == Falses(|full|)
    else n <= |full| && |sent.f| == n && full == sent.f + Falses(|full| - n)
  }

  lemma TracksStart(k: Kvs)
    requires Shaped(k)
    ensures Tracks(k.sent, |k.pairs|, SentOf(k))
  {
  }

  lemma TracksStep(sent: SentFlags, n: nat, full: seq<bool>, j: nat)
    requires Tracks(sent, n, full) && j <= |full|
    ensures j == |full| ==> Tracks(sent, n, full + [false])
    ensures j < |full| ==> sent.Flags? ==> |sent.f| == n
    ensures j < |full| ==>
              Tracks(if sent.Flags? && j < n then Flags(sent.f[j := false]) else sent, n, full[j := false])
  {
  }

  lemma TracksEnd(sent: SentFlags, n: nat, full: seq<bool>)
    requires Tracks(sent, n, full)
    ensures sent.Flags? ==> |sent.f| == n <= |full| && sent.f + Falses(|full| - n) == full
  {
  }

  lemma MergeAllStep(t: Table, puts: seq<Pair>, m: nat, noDup: bool)
    requires |t.pairs| == |t.sent| && m < |puts|
    ensures MergeAll(t, puts[m..], noDup) == MergeAll(MergeOne(t, puts[m], noDup), puts[m + 1..], noDup)
  {
    assert puts[m..][1..] == puts[m + 1..];
  }

  lemma MergeAllEnd(t: Table, puts: seq<Pair>, noDup: bool)
    requires |t.pairs| == |t.sent|
    ensures MergeAll(t, puts[|puts|..], noDup) == t
  {
  }

  lemma MergeStart(ps: seq<Pair>, puts: seq<Pair>)
    ensures Appended(ps, puts[..0], ps) && !RepeatsNewKey(ps, puts[..0])
  {
  }

  method SearchKey(ps: seq<Pair>, key: string) returns (j: nat)
    ensures j == FindPair(ps, key)
  {
    j := 0;
    while j < |ps| && ps[j].key != key
      invariant 0 <= j <= |ps|
      invariant forall x | 0 <= x < j :: ps[x].key != key
    {
      j := j + 1;
    }
  }

  /**
   The loop of _merge_named_kvs.  The flag table keeps its old length until the
   loop ends, so overwriting a key appended by the same put would clear a flag
   beyond it; `overrun` tells exactly when that happens.
   */
  method MergeLoop(k: Kvs, puts: seq<Pair>, noDup: bool) returns (r: Kvs, overrun: bool)
    requires Shaped(k)
    ensures r == Merged(k, puts, noDup)
    ensures overrun <==> k.sent.Flags? && !noDup && RepeatsNewKey(k.pairs, puts)
  {
    hide MergeAll, RepeatsNewKey, Appended, Tracks, FindPair;
    var pairs, sent := k.pairs, k.sent;
    ghost var full := SentOf(k);
    overrun := false;
    var m := 0;
    assert puts[0..] == puts;
    TracksStart(k);
    MergeStart(k.pairs, puts);
    while m < |puts|
      invariant 0 <= m <= |puts| && |k.pairs| <= |pairs| == |full|
      invariant MergeAll(Table(pairs, full), puts[m..], noDup) == MergeAll(TableOf(k), puts, noDup)
      invariant sent.Unset? <==> k.sent.Unset?
      invariant Tracks(sent, |k.pairs|, full)
      invariant Appended(k.pairs, puts[..m], pairs)
      invariant overrun <==> k.sent.Flags? && !noDup && RepeatsNewKey(k.pairs, puts[..m])
    {
      MergeAllStep(Table(pairs, full), puts, m, noDup);
      var j := |pairs|;
      if !noDup {
        j := SearchKey(pairs, puts[m].key);
        AppendedFind(k.pairs, puts[..m], pairs, puts[m].key, j);
      }
      RepeatsSnoc(k.pairs, puts, m);
      AppendedStep(k.pairs, puts, m, pairs, j);
      TracksStep(sent, |k.pairs|, full, j);
      if j < |pairs| {
        if sent.Flags? {
          if j < |sent.f| { sent := Flags(sent.f[j := false]); } else { overrun := true; }
        }
        pairs, full := pairs[j := puts[m]], full[j := false];
      } else {
        pairs, full := pairs + [puts[m]], full + [false];
      }
      m := m + 1;
    }
    assert puts[..m] == puts;
    MergeAllEnd(Table(pairs, full), puts, noDup);
    TracksEnd(sent, |k.pairs|, full);
    if sent.Flags? { sent := Flags(sent.f + Falses(|pairs| - |sent.f|)); }
    r := Kvs(k.name, pairs, sent);
  }

  /** The inner loop of _kvs_comm_dup: copies the unsent pairs out and marks them sent. */
  method TakeUnsent(k: Kvs) returns (out: seq<Pair>, f: seq<bool>)
    requires Shaped(k)
    ensures out == Unsent(k.pairs, SentOf(k)) && f == Trues(|k.pairs|)
  {
    hide Unsent;
    f := if k.sent.Unset? then Falses(|k.pairs|) else k.sent.f;
    ghost var f0 := f;
    out := [];
    var j := 0;
    UnsentNone(k.pairs, f0);
    while j < |k.pairs|
      invariant 0 <= j <= |k.pairs| == |f|
      invariant out == Unsent(k.pairs[..j], f0[..j])
      invariant forall x | 0 <= x < |f| :: f[x] == (x < j || f0[x])
    {
      UnsentSnoc(k.pairs, f0, j);
      if !f[j] {
        out := out + [k.pairs[j]];
        f := f[j := true];
      }
      j := j + 1;
    }
    assert k.pairs[..j] == k.pairs && f0[..j] == f0;
  }

  lemma UnsentNone(ps: seq<Pair>, f: seq<bool>)
    requires |ps| == |f|
    ensures Unsent(ps[..0], f[..0]) == []
  {
  }

  lemma {:induction false} UnsentSnoc(ps: seq<Pair>, f: seq<bool>, j: nat)
    requires |ps| == |f| && j < |ps|
    ensures Unsent(ps[..j + 1], f[..j + 1]) == Unsent(ps[..j], f[..j]) + if f[j] then [] else [ps[j]]
    decreases j
  {
    if j > 0 {
      UnsentSnoc(ps[1..], f[1..], j - 1);
      assert ps[..j + 1][1..] == ps[1..][..j] && ps[..j][1..] == ps[1..][..j - 1];
      assert f[..j + 1][1..] == f[1..][..j] && f[..j][1..] == f[1..][..j - 1];
    }
  }

  ghost predicate DistinctKeys(ps: seq<Pair>) {
    forall a, b | 0 <= a < b < |ps| :: ps[a].key != ps[b].key
  }

  /** After merging `puts` over `ps`: the old keys are where they were, and the keys are those of both. */
  ghost predicate Appended(ps: seq<Pair>, puts: seq<Pair>, r: seq<Pair>) {
    && |ps| <= |r|
    && (forall j | 0 <= j < |ps| :: r[j].key == ps[j].key)
    && (forall key :: HasKey(r, key) <==> HasKey(ps, key) || HasKey(puts, key))
  }

  lemma HasKeySnoc(ps: seq<Pair>, m: nat, key: string)
    requires m < |ps|
    ensures HasKey(ps[..m + 1], key) <==> HasKey(ps[..m], key) || ps[m].key == key
  {
    var q := ps[..m + 1];
    assert q[m] == ps[m] && forall j | 0 <= j < m :: q[j] == ps[..m][j];
    if HasKey(ps[..m], key) {
      var j :| 0 <= j < m && ps[..m][j].key == key;
      assert q[j].key == key;
    }
    if HasKey(q, key) {
      var j :| 0 <= j < |q| && q[j].key == key;
      assert j < m ==> ps[..m][j].key == key;
    }
  }

  lemma AppendedStep(ps: seq<Pair>, puts: seq<Pair>, m: nat, r: seq<Pair>, j: nat)
    requires m < |puts| && Appended(ps, puts[..m], r) && j <= |r|
    requires j < |r| ==> r[j].key == puts[m].key
    ensures Appended(ps, puts[..m + 1], if j < |r| then r[j := puts[m]] else r + [puts[m]])
  {
    var q := if j < |r| then r[j := puts[m]] else r + [puts[m]];
    forall key ensures HasKey(q, key) <==> HasKey(ps, key) || HasKey(puts[..m + 1], key) {
      HasKeySnoc(puts, m, key);
      assert q[j].key == puts[m].key && forall x | 0 <= x < |r| :: q[x].key == r[x].key;
      if HasKey(r, key) {
        var x :| 0 <= x < |r| && r[x].key == key;
        assert q[x].key == key;
      }
      if HasKey(q, key) {
        var x :| 0 <= x < |q| && q[x].key == key;
        assert x < |r| ==> r[x].key == key;
      }
    }
  }

  lemma RepeatsSnoc(ps: seq<Pair>, puts: seq<Pair>, m: nat)
    requires m < |puts|
    ensures RepeatsNewKey(ps, puts[..m + 1]) <==>
            RepeatsNewKey(ps, puts[..m]) || (!HasKey(ps, puts[m].key) && HasKey(puts[..m], puts[m].key))
  {
    hide HasKey;
    var q, key := puts[..m + 1], puts[m].key;
    assert q[m] == puts[m] && forall j | 0 <= j < m :: q[j] == puts[..m][j];
    if RepeatsNewKey(ps, puts[..m]) {
      var a, b :| 0 <= a < b < m && puts[..m][a].key == puts[..m][b].key && !HasKey(ps, puts[..m][a].key);
      assert q[a].key == q[b].key && !HasKey(ps, q[a].key);
    }
    if HasKey(puts[..m], key) && !HasKey(ps, key) {
      var a := KeyIndex(puts[..m], key);
      assert q[a].key == q[m].key && !HasKey(ps, q[a].key);
    }
    if RepeatsNewKey(ps, q) {
      var a, b :| 0 <= a < b < |q| && q[a].key == q[b].key && !HasKey(ps, q[a].key);
      if b < m {
        assert puts[..m][a].key == puts[..m][b].key;
      } else {
        KeyAt(puts[..m], a);
      }
    }
  }

  lemma KeyIndex(ps: seq<Pair>, key: string) returns (j: nat)
    requires HasKey(ps, key)
    ensures j < |ps| && ps[j].key == key
  {
    j :| 0 <= j < |ps| && ps[j].key == key;
  }

  lemma KeyAt(ps: seq<Pair>, j: nat)
    requires j < |ps|
    ensures HasKey(ps, ps[j].key)
  {
  }

  /** The search lands beyond the old table exactly when this put has already appended the key. */
  lemma AppendedFind(ps: seq<Pair>, puts: seq<Pair>, r: seq<Pair>, key: string, j: nat)
    requires Appended(ps, puts, r) && j == FindPair(r, key)
    ensures |ps| <= j < |r| <==> !HasKey(ps, key) && HasKey(puts, key)
  {
    hide FindPair;
    if j < |r| {
      KeyAt(r, j);
      if j < |ps| { KeyAt(ps, j); }
      if j >= |ps| && HasKey(ps, key) { var x := KeyIndex(ps, key); }
    }
  }
}
