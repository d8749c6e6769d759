/**
 Key-value spaces as a PMI-1 task keeps them (src/api/pmi.c).  The class holds
 the parallel key, value and state lists of the source; `View` is the same
 thing as a list of entries, and every method is proved against the functions
 on views.
 */
module PmiClient {
  import opened Seqs

  const MAX_KVSNAME_LEN := 256
  const MAX_KEY_LEN := 256
  const MAX_VAL_LEN := 1024

  datatype Pair = Pair(key: string, value: string)

  /** A named list of pairs as it travels between task and server. */
  datatype Comm = Comm(name: string, pairs: seq<Pair>)

  datatype KeyState = Global | Local | Disabled

  datatype Entry = Entry(key: string, value: string, state: KeyState)

  datatype Rec = Rec(name: string, defunct: bool, entries: seq<Entry>)

  datatype Status = Success | InvalidKvs | InvalidKey | InvalidVal | InvalidArg

  datatype GetResult = Found(value: string) | TooLong | NoKey | NoKvs

  // ---- Searching -----------------------------------------------------------

  /** First record with the name, or the length. */
  function FindRec(recs: seq<Rec>, name: string): (i: nat)
    ensures i <= |recs| && (i < |recs| ==> recs[i].name == name)
    ensures forall k | 0 <= k < i :: recs[k].name != name
  {
    FirstIndex(recs, (r: Rec) => r.name == name)
  }

  function FindKey(es: seq<Entry>, key: string): (j: nat)
    ensures j <= |es| && (j < |es| ==> es[j].key == key)
    ensures forall k | 0 <= k < j :: es[k].key != key
  {
    FirstIndex(es, (e: Entry) => e.key == key)
  }

  /** First record with the name that has not been destroyed. */
  function FindLive(recs: seq<Rec>, name: string): (i: nat)
    ensures i <= |recs| && (i < |recs| ==> recs[i].name == name && !recs[i].defunct)
    ensures forall k | 0 <= k < i :: recs[k].defunct || recs[k].name != name
  {
    FirstIndex(recs, (r: Rec) => r.name == name && !r.defunct)
  }

  // ---- Operations on views -------------------------------------------------

  function PutEntry(es: seq<Entry>, key: string, value: string, local: bool, noDup: bool): seq<Entry> {
    var j := FindKey(es, key);
    if noDup || j == |es| then es + [Entry(key, value, if local then Local else Global)]
    else es[j := Entry(key, value, if local then Local else es[j].state)]
  }

  function PutRec(recs: seq<Rec>, name: string, key: string, value: string, local: bool, noDup: bool): seq<Rec> {
    var i := FindRec(recs, name);
    if i == |recs| then recs
    else recs[i := recs[i].(entries := PutEntry(recs[i].entries, key, value, local, noDup))]
  }

  function DisabledEntries(es: seq<Entry>): (r: seq<Entry>)
    ensures |r| == |es|
    ensures forall j | 0 <= j < |es| :: r[j] == if es[j].state == Local then es[j].(state := Disabled) else es[j]
  {
    seq(|es|, j requires 0 <= j < |es| => if es[j].state == Local then es[j].(state := Disabled) else es[j])
  }

  function Disable(recs: seq<Rec>): (r: seq<Rec>)
    ensures |r| == |recs|
    ensures forall i | 0 <= i < |recs| :: r[i] == recs[i].(entries := DisabledEntries(recs[i].entries))
  {
    seq(|recs|, i requires 0 <= i < |recs| => recs[i].(entries := DisabledEntries(recs[i].entries)))
  }

  /** Merging one received list, pair by pair. */
  function ReceivePairs(recs: seq<Rec>, name: string, ps: seq<Pair>, noDup: bool): seq<Rec>
    decreases |ps|
  {
    if ps == [] then recs
    else ReceivePairs(PutRec(recs, name, ps[0].key, ps[0].value, false, noDup), name, ps[1..], noDup)
  }

  function ReceiveAll(recs: seq<Rec>, snapshot: seq<Comm>, noDup: bool): seq<Rec>
    decreases |snapshot|
  {
    if snapshot == [] then recs
    else ReceiveAll(ReceivePairs(recs, snapshot[0].name, snapshot[0].pairs, noDup), snapshot[1..], noDup)
  }

  /** What a barrier does with the snapshot it is handed. */
  function Receive(recs: seq<Rec>, snapshot: seq<Comm>, noDup: bool): seq<Rec> {
    ReceiveAll(Disable(recs), snapshot, noDup)
  }

  function Get(recs: seq<Rec>, name: string, key: string, length: int): GetResult {
    var i := FindLive(recs, name);
    if i == |recs| then NoKvs
    else
      var es := recs[i].entries;
      var j := FindKey(es, key);
      if j == |es| then NoKey
      else if |es[j].value| > length - 1 then TooLong
      else Found(es[j].value)
  }

  // ---- Commit --------------------------------------------------------------

  function NonGlobals(es: seq<Entry>): seq<Entry> {
    if es == [] then []
    else (if es[0].state == Global then [] else [es[0]]) + NonGlobals(es[1..])
  }

  function PairsOf(es: seq<Entry>): (ps: seq<Pair>)
    ensures |ps| == |es| && forall j | 0 <= j < |es| :: ps[j] == Pair(es[j].key, es[j].value)
  {
    seq(|es|, j requires 0 <= j < |es| => Pair(es[j].key, es[j].value))
  }

  /** What a commit sends: per live record, its non-global entries in order; nothing for a record without any. */
  function CommitMsg(recs: seq<Rec>): seq<Comm> {
    if recs == [] then []
    else
      (if recs[0].defunct || NonGlobals(recs[0].entries) == [] then []
       else [Comm(recs[0].name, PairsOf(NonGlobals(recs[0].entries)))])
      + CommitMsg(recs[1..])
  }

  /** No list of a commit is empty, and each is of a live record. */
  lemma {:induction false} CommitListsFilled(recs: seq<Rec>, k: nat)
    requires k < |CommitMsg(recs)|
    ensures CommitMsg(recs)[k].pairs != []
    ensures exists i | 0 <= i < |recs| :: !recs[i].defunct && recs[i].name == CommitMsg(recs)[k].name
  {
    var rest := CommitMsg(recs[1..]);
    var skip := |CommitMsg(recs)| - |rest|;
    if k < skip {
      assert recs[0].name == CommitMsg(recs)[k].name;
    } else {
      CommitListsFilled(recs[1..], k - skip);
      var i :| 0 <= i < |recs| - 1 && !recs[1..][i].defunct && recs[1..][i].name == rest[k - skip].name;
      assert recs[i + 1] == recs[1..][i] && CommitMsg(recs)[k] == rest[k - skip];
    }
  }

  /** A rearrangement whose prefix is exactly the non-global entries in their original order. */
  ghost predicate Partitioned(es: seq<Entry>, r: seq<Entry>) {
    && multiset(r) == multiset(es)
    && |NonGlobals(es)| <= |r|
    && r[..|NonGlobals(es)|] == NonGlobals(es)
    && forall k | |NonGlobals(es)| <= k < |r| :: r[k].state == Global
  }

  /** The records after a commit. */
  ghost predicate Committed(recs: seq<Rec>, r: seq<Rec>) {
    && |r| == |recs|
    && forall i | 0 <= i < |recs| ::
         && r[i].name == recs[i].name && r[i].defunct == recs[i].defunct
         && (if recs[i].defunct then r[i] == recs[i] else Partitioned(recs[i].entries, r[i].entries))
  }

  lemma {:induction false} NonGlobalsSnoc(es: seq<Entry>, j: nat)
    requires j < |es|
    ensures NonGlobals(es[..j + 1]) == NonGlobals(es[..j]) + if es[j].state == Global then [] else [es[j]]
    decreases j
  {
    if j == 0 {
      assert es[..1][1..] == [] && es[..0] == [];
    } else {
      NonGlobalsSnoc(es[1..], j - 1);
      assert es[..j + 1][1..] == es[1..][..j] && es[..j][1..] == es[1..][..j - 1];
    }
  }

  lemma CommitMsgNone(recs: seq<Rec>)
    ensures CommitMsg(recs[..0]) == []
  {
  }

  lemma {:induction false} CommitMsgSnoc(recs: seq<Rec>, i: nat)
    requires i < |recs|
    ensures CommitMsg(recs[..i + 1]) == CommitMsg(recs[..i]) + CommitMsg(recs[i..i + 1])
    decreases i
  {
    if i == 0 {
      assert recs[..0] == [] && recs[..1] == recs[0..1];
    } else {
      hide CommitMsg;
      CommitMsgSnoc(recs[1..], i - 1);
      Slices(recs, i);
      CommitMsgFirst(recs[..i + 1]);
      CommitMsgFirst(recs[..i]);
      var head := CommitMsg(recs[..i + 1][..1]);
      assert head + (CommitMsg(recs[1..][..i - 1]) + CommitMsg(recs[i..i + 1]))
          == head + CommitMsg(recs[1..][..i - 1]) + CommitMsg(recs[i..i + 1]);
    }
  }

  lemma Slices(recs: seq<Rec>, i: nat)
    requires 0 < i < |recs|
    ensures recs[..i + 1][1..] == recs[1..][..i] && recs[..i][1..] == recs[1..][..i - 1]
    ensures recs[1..][i - 1..i] == recs[i..i + 1] && recs[..i + 1][..1] == recs[..i][..1]
  {
  }

  /** The first record's part of the message, then that of the others. */
  lemma CommitMsgFirst(recs: seq<Rec>)
    requires recs != []
    ensures CommitMsg(recs) == CommitMsg(recs[..1]) + CommitMsg(recs[1..])
  {
    hide NonGlobals;
    var one := recs[..1];
    assert one[0] == recs[0] && one[1..] == [];
  }

  /** Entries with one key agree on the value. */
  ghost predicate Consistent(es: seq<Entry>) {
    forall j, k | 0 <= j < |es| && 0 <= k < |es| && es[j].key == es[k].key :: es[j].value == es[k].value
  }

  lemma SameMembers(es: seq<Entry>, r: seq<Entry>)
    requires multiset(es) == multiset(r)
    ensures forall e :: e in es <==> e in r
  {
    assert forall e :: e in es <==> e in multiset(es);
    assert forall e :: e in r <==> e in multiset(r);
  }

  /** Rearranging consistent entries changes no lookup. */
  lemma LookupUnchanged(es: seq<Entry>, r: seq<Entry>, key: string)
    requires multiset(es) == multiset(r) && Consistent(es)
    ensures var j, k := FindKey(es, key), FindKey(r, key);
            (j == |es| <==> k == |r|) && (j < |es| && k < |r| ==> es[j].value == r[k].value)
  {
    SameMembers(es, r);
    var j, k := FindKey(es, key), FindKey(r, key);
    if j < |es| { assert es[j] in r; }
    if k < |r| { assert r[k] in es; }
  }

  /** A commit changes no get, in every record whose equal keys carry equal values. */
  lemma CommitKeepsGets(recs: seq<Rec>, r: seq<Rec>, name: string, key: string, length: int)
    requires Committed(recs, r)
    requires forall i | 0 <= i < |recs| :: Consistent(recs[i].entries)
    ensures Get(r, name, key, length) == Get(recs, name, key, length)
  {
    var i := FindLive(recs, name);
    assert FindLive(r, name) == i;
    if i < |recs| { LookupUnchanged(recs[i].entries, r[i].entries, key); }
  }

  // ---- The record as the source stores it ----------------------------------

  datatype KvsRec = KvsRec(name: string, defunct: bool, keys: seq<string>, values: seq<string>, states: seq<KeyState>)

  ghost predicate Aligned(r: KvsRec) { |r.keys| == |r.values| == |r.states| }

  ghost function Entries(r: KvsRec): (es: seq<Entry>)
    requires Aligned(r)
    ensures |es| == |r.keys|
    ensures forall j | 0 <= j < |es| :: es[j] == Entry(r.keys[j], r.values[j], r.states[j])
  {
    seq(|r.keys|, j requires 0 <= j < |r.keys| => Entry(r.keys[j], r.values[j], r.states[j]))
  }

  ghost function RecView(r: KvsRec): Rec
    requires Aligned(r)
  {
    Rec(r.name, r.defunct, Entries(r))
  }

  /** _kvs_swap: the three lists are swapped alike. */
  function Swap(r: KvsRec, x: nat, y: nat): (q: KvsRec)
    requires Aligned(r) && x < |r.keys| && y < |r.keys|
    ensures Aligned(q) && Entries(q) == Entries(r)[x := Entries(r)[y]][y := Entries(r)[x]]
  {
    r.(states := r.states[x := r.states[y]][y := r.states[x]],
       keys := r.keys[x := r.keys[y]][y := r.keys[x]],
       values := r.values[x := r.values[y]][y := r.values[x]])
  }

  /** The index of the key in a record, or the number of keys. */
  method SearchKeys(r: KvsRec, key: string) returns (j: nat)
    requires Aligned(r)
    ensures j == FindKey(Entries(r), key)
  {
    j := 0;
    while j < |r.keys| && r.keys[j] != key
      invariant 0 <= j <= |r.keys|
      invariant forall k | 0 <= k < j :: Entries(r)[k].key != key
    {
      j := j + 1;
    }
  }

  /** The part of _kvs_put on the record found. */
  method PutInRec(r: KvsRec, key: string, value: string, local: bool, noDup: bool) returns (q: KvsRec)
    requires Aligned(r)
    ensures Aligned(q) && q.name == r.name && q.defunct == r.defunct
    ensures Entries(q) == PutEntry(Entries(r), key, value, local, noDup)
  {
    hide FindKey;
    var j := |r.keys|;
    if !noDup { j := SearchKeys(r, key); }
    if j < |r.keys| {
      q := r.(values := r.values[j := value], states := if local then r.states[j := Local] else r.states);
    } else {
      q := KvsRec(r.name, r.defunct, r.keys + [key], r.values + [value], r.states + [if local then Local else Global]);
    }
    assert Entries(q) == PutEntry(Entries(r), key, value, local, noDup);
  }

  /** The inner loop of _kvs_disable_local_keys. */
  method DisableRec(r0: KvsRec) returns (r: KvsRec)
    requires Aligned(r0)
    ensures Aligned(r) && r.name == r0.name && r.defunct == r0.defunct && Entries(r) == DisabledEntries(Entries(r0))
  {
    var j := 0;
    r := r0;
    while j < |r.keys|
      invariant 0 <= j <= |r.keys| && Aligned(r)
      invariant r.keys == r0.keys && r.values == r0.values && r.name == r0.name && r.defunct == r0.defunct
      invariant forall k | 0 <= k < j :: r.states[k] == if r0.states[k] == Local then Disabled else r0.states[k]
      invariant forall k | j <= k < |r.keys| :: r.states[k] == r0.states[k]
    {
      if r.states[j] == Local { r := r.(states := r.states[j := Disabled]); }
      j := j + 1;
    }
    assert Entries(r) == DisabledEntries(Entries(r0));
  }

  class Client {
    var recs: seq<KvsRec>
    const noDup: bool

    ghost predicate Valid()
      reads this
    {
      forall i | 0 <= i < |recs| :: Aligned(recs[i])
    }

    ghost function View(): (v: seq<Rec>)
      reads this
      requires Valid()
      ensures |v| == |recs| && forall i | 0 <= i < |recs| :: v[i] == RecView(recs[i])
    {
      seq(|recs|, i requires 0 <= i < |recs| reads this requires Valid() => RecView(recs[i]))
    }

    constructor (noDup: bool)
      ensures Valid() && View() == [] && this.noDup == noDup
    {
      this.noDup := noDup;
      recs := [];
    }

    method InitKvs(name: string)
      requires Valid()
      modifies this
      ensures Valid() && View() == old(View()) + [Rec(name, false, [])]
    {
      recs := recs + [KvsRec(name, false, [], [], [])];
    }

    /** _kvs_put */
    method KvsPut(name: string, key: string, value: string, local: bool) returns (rc: Status)
      requires Valid()
      modifies this
      ensures Valid() && View() == PutRec(old(View()), name, key, value, local, noDup)
      ensures rc == if FindRec(old(View()), name) < |old(View())| then Success else InvalidKvs
    {
      hide FindRec, PutEntry;
      ghost var v := View();
      var i := 0;
      while i < |recs| && recs[i].name != name
        invariant 0 <= i <= |recs| && recs == old(recs)
        invariant forall k | 0 <= k < i :: v[k].name != name
      {
        i := i + 1;
      }
      assert FindRec(v, name) == i;
      if i == |recs| { return InvalidKvs; }
      var r := PutInRec(recs[i], key, value, local, noDup);
      recs := recs[i := r];
      assert View() == v[i := v[i].(entries := PutEntry(v[i].entries, key, value, local, noDup))];
      rc := Success;
    }

    /** PMI_KVS_Put: length checks, then a local put. */
    method Put(name: string, key: string, value: string) returns (rc: Status)
      requires Valid()
      modifies this
      ensures Valid()
      ensures var ok := |name| <= MAX_KVSNAME_LEN && |key| <= MAX_KEY_LEN && |value| <= MAX_VAL_LEN;
              && View() == (if ok then PutRec(old(View()), name, key, value, true, noDup) else old(View()))
              && rc == (if |name| > MAX_KVSNAME_LEN then InvalidKvs
                        else if |key| > MAX_KEY_LEN then InvalidKey
                        else if |value| > MAX_VAL_LEN then InvalidVal
                        else if HasRec(old(View()), name) then Success else InvalidKvs)
    {
      if |name| > MAX_KVSNAME_LEN { return InvalidKvs; }
      if |key| > MAX_KEY_LEN { return InvalidKey; }
      if |value| > MAX_VAL_LEN { return InvalidVal; }
      rc := KvsPut(name, key, value, true);
    }

    /** The swap loop of PMI_KVS_Commit on one record. */
    method Gather(r0: KvsRec) returns (r: KvsRec, localPairs: nat)
      requires Aligned(r0)
      ensures Aligned(r) && r.name == r0.name && r.defunct == r0.defunct
      ensures Partitioned(Entries(r0), Entries(r)) && localPairs == |NonGlobals(Entries(r0))|
    {
      hide Gathered;
      ghost var es := Entries(r0);
      r, localPairs := r0, 0;
      var j := 0;
      GatherStart(es);
      while j < |r.keys|
        invariant Aligned(r) && |r.keys| == |es| && r.name == r0.name && r.defunct == r0.defunct
        invariant 0 <= localPairs <= j <= |es|
        invariant Gathered(es, Entries(r), j, localPairs)
      {
        GatherStep(es, Entries(r), j, localPairs);
        if r.states[j] != Global {
          if localPairs != j {
            r := Swap(r, j, localPairs);
          }
          localPairs := localPairs + 1;
        }
        j := j + 1;
      }
      GatherEnd(es, Entries(r), localPairs);
    }

    /** PMI_KVS_Commit on record i: its part of the message. */
    method CommitRec(i: nat) returns (part: seq<Comm>)
      requires Valid() && i < |recs|
      modifies this
      ensures Valid() && |recs| == |old(recs)| && forall k | 0 <= k < |recs| && k != i :: recs[k] == old(recs[k])
      ensures Committed([old(RecView(recs[i]))], [RecView(recs[i])])
      ensures part == CommitMsg([old(RecView(recs[i]))])
    {
      hide NonGlobals;
      ghost var v := RecView(recs[i]);
      assert [v][1..] == [];
      part := [];
      if !recs[i].defunct {
        var r, localPairs := Gather(recs[i]);
        recs := recs[i := r];
        if localPairs > 0 {
          var ps := seq(localPairs, j requires 0 <= j < localPairs && Aligned(r) && localPairs <= |r.keys| => Pair(r.keys[j], r.values[j]));
          assert ps == PairsOf(Entries(r)[..localPairs]);
          part := [Comm(r.name, ps)];
        }
      }
    }

    /** PMI_KVS_Commit: rearranges the records and returns the message for the server. */
    method Commit() returns (msg: seq<Comm>)
      requires Valid()
      modifies this
      ensures Valid() && Committed(old(View()), View()) && msg == CommitMsg(old(View()))
    {
      hide Committed, CommitMsg;
      ghost var v := View();
      msg := [];
      var i := 0;
      CommitMsgNone(v);
      while i < |recs|
        invariant 0 <= i <= |recs| == |v| && Valid()
        invariant forall k | 0 <= k < i :: Committed([v[k]], [RecView(recs[k])])
        invariant forall k | i <= k < |v| :: RecView(recs[k]) == v[k]
        invariant msg == CommitMsg(v[..i])
      {
        CommitMsgSnoc(v, i);
        assert v[i..i + 1] == [v[i]];
        var part := CommitRec(i);
        msg := msg + part;
        i := i + 1;
      }
      assert v[..i] == v;
      CommittedEach(v, View());
    }

    /** _kvs_disable_local_keys */
    method DisableLocalKeys()
      requires Valid()
      modifies this
      ensures Valid() && View() == Disable(old(View()))
    {
      ghost var v := View();
      var i := 0;
      while i < |recs|
        invariant 0 <= i <= |recs| == |v| && Valid()
        invariant forall k | 0 <= k < i :: RecView(recs[k]) == Disable(v)[k]
        invariant forall k | i <= k < |v| :: RecView(recs[k]) == v[k]
      {
        var r := DisableRec(recs[i]);
        recs := recs[i := r];
        i := i + 1;
      }
      assert View() == Disable(v);
    }

    /** The part of PMI_Barrier after the snapshot has arrived. */
    method FinishBarrier(snapshot: seq<Comm>) returns (rc: Status)
      requires Valid()
      modifies this
      ensures Valid() && View() == Receive(old(View()), snapshot, noDup)
      ensures rc == Success <==> Missing(old(View()), snapshot) == {}
    {
      hide ReceiveAll, Missing;
      ghost var v0 := View();
      DisableLocalKeys();
      rc := Success;
      var i := 0;
      ghost var goal := ReceiveAll(View(), snapshot, noDup);
      assert snapshot[0..] == snapshot;
      MissingNone(v0, snapshot);
      while i < |snapshot|
        invariant 0 <= i <= |snapshot| && Valid() && SameNames(v0, View())
        invariant ReceiveAll(View(), snapshot[i..], noDup) == goal
        invariant rc == Success <==> Missing(v0, snapshot[..i]) == {}
      {
        ReceiveAllStep(View(), snapshot, i, noDup);
        MissingSnoc(v0, snapshot, i);
        SameNamesFind(v0, View(), snapshot[i].name);
        var k := ReceiveComm(snapshot[i]);
        if k != Success { rc := k; }
        i := i + 1;
      }
      assert snapshot[..i] == snapshot;
      ReceiveAllEnd(View(), snapshot, noDup);
    }

    /** The inner loop of PMI_Barrier: one list of pairs. */
    method ReceiveComm(c: Comm) returns (rc: Status)
      requires Valid()
      modifies this
      ensures Valid() && View() == ReceivePairs(old(View()), c.name, c.pairs, noDup)
      ensures SameNames(old(View()), View())
      ensures rc == Success <==> c.pairs == [] || HasRec(old(View()), c.name)
    {
      hide ReceivePairs, PutRec, FindRec;
      rc := Success;
      var j := 0;
      ghost var v := View();
      assert c.pairs[0..] == c.pairs;
      while j < |c.pairs|
        invariant 0 <= j <= |c.pairs| && Valid() && SameNames(v, View())
        invariant ReceivePairs(View(), c.name, c.pairs[j..], noDup) == ReceivePairs(v, c.name, c.pairs, noDup)
        invariant rc == Success <==> j == 0 || HasRec(v, c.name)
      {
        ReceivePairsStep(View(), c, j, noDup);
        PutKeepsNames(View(), c.name, c.pairs[j].key, c.pairs[j].value, false, noDup);
        SameNamesFind(v, View(), c.name);
        var k := KvsPut(c.name, c.pairs[j].key, c.pairs[j].value, false);
        if k != Success { rc := k; }
        j := j + 1;
      }
      ReceivePairsEnd(View(), c, noDup);
    }

    /** PMI_KVS_Get */
    method KvsGet(name: string, key: string, length: int) returns (r: GetResult)
      requires Valid()
      ensures r == if |name| > MAX_KVSNAME_LEN then NoKvs
                   else if |key| > MAX_KEY_LEN then NoKey
                   else Get(View(), name, key, length)
    {
      hide FindLive, FindKey;
      if |name| > MAX_KVSNAME_LEN { return NoKvs; }
      if |key| > MAX_KEY_LEN { return NoKey; }
      var i := 0;
      while i < |recs| && (recs[i].defunct || recs[i].name != name)
        invariant 0 <= i <= |recs|
        invariant forall k | 0 <= k < i :: View()[k].defunct || View()[k].name != name
      {
        i := i + 1;
      }
      assert FindLive(View(), name) == i;
      if i == |recs| { return NoKvs; }
      var j := SearchKeys(recs[i], key);
      if j == |recs[i].keys| { return NoKey; }
      r := if |recs[i].values[j]| > length - 1 then TooLong else Found(recs[i].values[j]);
    }

    /** PMI_KVS_Destroy */
    method Destroy(name: string) returns (rc: Status)
      requires Valid()
      modifies this
      ensures Valid() && View() == MarkDefunct(old(View()), name)
      ensures rc == if FindRec(old(View()), name) < |old(View())| then Success else InvalidArg
    {
      ghost var v := View();
      var i := 0;
      while i < |recs|
        invariant 0 <= i <= |recs| && recs == old(recs)
        invariant forall k | 0 <= k < i :: v[k].name != name
      {
        if recs[i].name == name {
          assert FindRec(v, name) == i;
          recs := recs[i := recs[i].(defunct := true)];
          assert View() == MarkDefunct(v, name);
          return Success;
        }
        i := i + 1;
      }
      assert FindRec(v, name) == |v|;
      rc := InvalidArg;
    }
  }

  function MarkDefunct(recs: seq<Rec>, name: string): seq<Rec> {
    var i := FindRec(recs, name);
    if i == |recs| then recs else recs[i := recs[i].(defunct := true)]
  }

  predicate HasRec(recs: seq<Rec>, name: string) { FindRec(recs, name) < |recs| }

  /** Names that carry pairs in the snapshot and have no record here; a barrier drops their pairs and reports failure. */
  function Missing(recs: seq<Rec>, snapshot: seq<Comm>): set<string> {
    set i | 0 <= i < |snapshot| && snapshot[i].pairs != [] && !HasRec(recs, snapshot[i].name) :: snapshot[i].name
  }

  ghost predicate SameNames(recs: seq<Rec>, r: seq<Rec>) {
    |r| == |recs| && forall i | 0 <= i < |recs| :: r[i].name == recs[i].name
  }

  lemma {:induction false} SameNamesFind(recs: seq<Rec>, r: seq<Rec>, name: string)
    requires SameNames(recs, r)
    ensures FindRec(r, name) == FindRec(recs, name)
  {
    var i, k := FindRec(recs, name), FindRec(r, name);
    assert i < |recs| ==> r[i].name == name;
  }

  lemma PutKeepsNames(recs: seq<Rec>, name: string, key: string, value: string, local: bool, noDup: bool)
    ensures SameNames(recs, PutRec(recs, name, key, value, local, noDup))
  {
  }

  lemma ReceivePairsStep(recs: seq<Rec>, c: Comm, j: nat, noDup: bool)
    requires j < |c.pairs|
    ensures ReceivePairs(recs, c.name, c.pairs[j..], noDup)
         == ReceivePairs(PutRec(recs, c.name, c.pairs[j].key, c.pairs[j].value, false, noDup), c.name, c.pairs[j + 1..], noDup)
  {
    assert c.pairs[j..][1..] == c.pairs[j + 1..];
  }

  lemma ReceivePairsEnd(recs: seq<Rec>, c: Comm, noDup: bool)
    ensures ReceivePairs(recs, c.name, c.pairs[|c.pairs|..], noDup) == recs
  {
  }

  lemma ReceiveAllStep(recs: seq<Rec>, snapshot: seq<Comm>, i: nat, noDup: bool)
    requires i < |snapshot|
    ensures ReceiveAll(recs, snapshot[i..], noDup)
         == ReceiveAll(ReceivePairs(recs, snapshot[i].name, snapshot[i].pairs, noDup), snapshot[i + 1..], noDup)
  {
    assert snapshot[i..][1..] == snapshot[i + 1..];
  }

  lemma ReceiveAllEnd(recs: seq<Rec>, snapshot: seq<Comm>, noDup: bool)
    ensures ReceiveAll(recs, snapshot[|snapshot|..], noDup) == recs
  {
  }

  lemma MissingNone(recs: seq<Rec>, snapshot: seq<Comm>)
    ensures Missing(recs, snapshot[..0]) == {}
  {
  }

  lemma MissingSnoc(recs: seq<Rec>, snapshot: seq<Comm>, i: nat)
    requires i < |snapshot|
    ensures Missing(recs, snapshot[..i + 1]) == {} <==>
            Missing(recs, snapshot[..i]) == {} && (snapshot[i].pairs == [] || HasRec(recs, snapshot[i].name))
  {
    var m, n := Missing(recs, snapshot[..i]), Missing(recs, snapshot[..i + 1]);
    var c := snapshot[i];
    assert snapshot[..i + 1][i] == c;
    if c.pairs != [] && !HasRec(recs, c.name) { assert c.name in n; }
    assert forall k | 0 <= k < i :: snapshot[..i + 1][k] == snapshot[..i][k];
    assert m <= n;
    assert forall x | x in n :: x in m || (c.pairs != [] && !HasRec(recs, c.name));
  }

  /** The swap loop after j entries, localPairs of them gathered in front. */
  ghost predicate Gathered(es: seq<Entry>, r: seq<Entry>, j: nat, localPairs: nat) {
    && localPairs <= j <= |es| == |r|
    && multiset(r) == multiset(es)
    && r[..localPairs] == NonGlobals(es[..j])
    && (forall k | localPairs <= k < j :: r[k].state == Global)
    && (forall k | j <= k < |es| :: r[k] == es[k])
  }

  lemma GatherStart(es: seq<Entry>)
    ensures Gathered(es, es, 0, 0)
  {
    assert es[..0] == [];
  }

  lemma GatherStep(es: seq<Entry>, r: seq<Entry>, j: nat, localPairs: nat)
    requires Gathered(es, r, j, localPairs) && j < |es|
    ensures r[j].state == Global ==> Gathered(es, r, j + 1, localPairs)
    ensures r[j].state != Global && localPairs == j ==> Gathered(es, r, j + 1, j + 1)
    ensures r[j].state != Global ==>
              Gathered(es, r[j := r[localPairs]][localPairs := r[j]], j + 1, localPairs + 1)
  {
    assert |r| == |es|;
    hide Gathered;
    if r[j].state == Global {
      GatherSkip(es, r, j, localPairs);
    } else {
      GatherTake(es, r, j, localPairs);
      SwapSame(r, j);
    }
  }

  lemma GatherSkip(es: seq<Entry>, r: seq<Entry>, j: nat, localPairs: nat)
    requires Gathered(es, r, j, localPairs) && j < |es| && r[j].state == Global
    ensures Gathered(es, r, j + 1, localPairs)
  {
    hide NonGlobals;
    NonGlobalsSnoc(es, j);
    assert r[..localPairs] == NonGlobals(es[..j]) + [];
  }

  lemma GatherTake(es: seq<Entry>, r: seq<Entry>, j: nat, localPairs: nat)
    requires Gathered(es, r, j, localPairs) && j < |es| && r[j].state != Global
    ensures Gathered(es, r[j := r[localPairs]][localPairs := r[j]], j + 1, localPairs + 1)
  {
    hide NonGlobals;
    NonGlobalsSnoc(es, j);
    SwapKeeps(r, j, localPairs);
  }

  lemma SwapSame(r: seq<Entry>, j: nat)
    requires j < |r|
    ensures r[j := r[j]] == r
  {
  }

  lemma SwapKeeps(r: seq<Entry>, j: nat, x: nat)
    requires x <= j < |r|
    ensures var q := r[j := r[x]][x := r[j]];
            multiset(q) == multiset(r) && q[..x] == r[..x] && q[..x + 1] == r[..x] + [r[j]]
  {
    var q := r[j := r[x]][x := r[j]];
    assert q[..x] == r[..x];
    assert q[..x + 1] == r[..x] + [r[j]];
  }

  lemma GatherEnd(es: seq<Entry>, r: seq<Entry>, localPairs: nat)
    requires Gathered(es, r, |es|, localPairs)
    ensures Partitioned(es, r) && localPairs == |NonGlobals(es)|
  {
    assert es[..|es|] == es;
  }

  lemma CommittedEach(recs: seq<Rec>, r: seq<Rec>)
    requires |r| == |recs| && forall k | 0 <= k < |recs| :: Committed([recs[k]], [r[k]])
    ensures Committed(recs, r)
  {
    forall i | 0 <= i < |recs|
      ensures r[i].name == recs[i].name && r[i].defunct == recs[i].defunct
      ensures if recs[i].defunct then r[i] == recs[i] else Partitioned(recs[i].entries, r[i].entries)
    {
      assert Committed([recs[i]], [r[i]]);
      assert [recs[i]][0] == recs[i] && [r[i]][0] == r[i];
    }
  }
}
