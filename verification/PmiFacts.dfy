/**
 Which name/key/value facts a task and the server hold, and exactly what each
 PMI-1 operation adds to them when equal keys of a space carry equal values.
 */
module PmiFacts {
  import opened PmiClient
  import opened PmiServer

  datatype Fact = Fact(name: string, key: string, value: string)

  /** The value every put of a key in a space carries. */
  type Book = map<(string, string), string>

  ghost predicate Known(b: Book, name: string, key: string, value: string) {
    (name, key) in b && b[(name, key)] == value
  }

  // ---- Entries of a task ---------------------------------------------------

  ghost predicate Holds(es: seq<Entry>, key: string, value: string) {
    exists j | 0 <= j < |es| :: es[j].key == key && es[j].value == value
  }

  /** Held as something this task will send again. */
  ghost predicate HoldsOwn(es: seq<Entry>, key: string, value: string) {
    exists j | 0 <= j < |es| :: es[j].key == key && es[j].value == value && es[j].state != Global
  }

  ghost predicate KnownEntries(b: Book, name: string, es: seq<Entry>) {
    forall j | 0 <= j < |es| :: Known(b, name, es[j].key, es[j].value)
  }

  ghost predicate KnownPairs(b: Book, name: string, ps: seq<Pair>) {
    forall j | 0 <= j < |ps| :: Known(b, name, ps[j].key, ps[j].value)
  }

  lemma PutEntryKnown(b: Book, name: string, es: seq<Entry>, key: string, value: string, local: bool, noDup: bool)
    requires KnownEntries(b, name, es) && Known(b, name, key, value)
    ensures KnownEntries(b, name, PutEntry(es, key, value, local, noDup))
  {
    hide FindKey, Known;
  }

  /** Old entries keep their places, and one place holds the new one. */
  lemma PutEntryPlaces(b: Book, name: string, es: seq<Entry>, key: string, value: string, local: bool, noDup: bool)
    returns (x: nat)
    requires KnownEntries(b, name, es) && Known(b, name, key, value)
    ensures var r := PutEntry(es, key, value, local, noDup);
            && x < |r| && |es| <= |r| <= |es| + 1 && (|es| < |r| ==> x == |es|)
            && r[x].key == key && r[x].value == value && (local ==> r[x].state == Local)
            && (!local && x == |es| ==> r[x].state == Global)
            && (forall j | 0 <= j < |es| && j != x :: r[j] == es[j])
            && (x < |es| ==> es[x].key == key && es[x].value == value && (!local ==> r[x].state == es[x].state))
  {
    hide FindKey;
    var j := FindKey(es, key);
    x := if noDup then |es| else j;
    if x < |es| { assert Known(b, name, es[x].key, es[x].value); }
  }

  lemma PutEntryFacts(b: Book, name: string, es: seq<Entry>, key: string, value: string, local: bool, noDup: bool,
                      k: string, v: string)
    requires KnownEntries(b, name, es) && Known(b, name, key, value)
    ensures var r := PutEntry(es, key, value, local, noDup);
            && (Holds(r, k, v) <==> Holds(es, k, v) || (k == key && v == value))
            && (HoldsOwn(r, k, v) <==> HoldsOwn(es, k, v) || (local && k == key && v == value))
  {
    hide PutEntry, KnownEntries;
    var x := PutEntryPlaces(b, name, es, key, value, local, noDup);
    var r := PutEntry(es, key, value, local, noDup);
    if Holds(es, k, v) {
      var j :| 0 <= j < |es| && es[j].key == k && es[j].value == v;
      assert r[j].key == k && r[j].value == v;
    }
    if HoldsOwn(es, k, v) {
      var j :| 0 <= j < |es| && es[j].key == k && es[j].value == v && es[j].state != Global;
      assert r[j].key == k && r[j].value == v && r[j].state != Global;
    }
  }

  lemma DisableEntryFacts(es: seq<Entry>, k: string, v: string)
    ensures Holds(DisabledEntries(es), k, v) <==> Holds(es, k, v)
    ensures HoldsOwn(DisabledEntries(es), k, v) <==> HoldsOwn(es, k, v)
  {
    var r := DisabledEntries(es);
    assert forall j | 0 <= j < |es| ::
        r[j].key == es[j].key && r[j].value == es[j].value && (r[j].state == Global <==> es[j].state == Global);
  }

  lemma PartitionFacts(es: seq<Entry>, r: seq<Entry>, k: string, v: string)
    requires multiset(r) == multiset(es)
    ensures Holds(r, k, v) <==> Holds(es, k, v)
    ensures HoldsOwn(r, k, v) <==> HoldsOwn(es, k, v)
  {
    PartitionKeeps(es, r, k, v);
    PartitionKeeps(r, es, k, v);
  }

  lemma PartitionKeeps(es: seq<Entry>, r: seq<Entry>, k: string, v: string)
    requires multiset(r) == multiset(es)
    ensures Holds(es, k, v) ==> Holds(r, k, v)
    ensures HoldsOwn(es, k, v) ==> HoldsOwn(r, k, v)
  {
    SameMembers(es, r);
    if Holds(es, k, v) {
      var j :| 0 <= j < |es| && es[j].key == k && es[j].value == v;
      assert es[j] in r;
    }
    if HoldsOwn(es, k, v) {
      var j :| 0 <= j < |es| && es[j].key == k && es[j].value == v && es[j].state != Global;
      assert es[j] in r;
    }
  }

  lemma PartitionKnown(b: Book, name: string, es: seq<Entry>, r: seq<Entry>)
    requires multiset(r) == multiset(es) && KnownEntries(b, name, es)
    ensures KnownEntries(b, name, r)
  {
    SameMembers(es, r);
    forall j | 0 <= j < |r| ensures Known(b, name, r[j].key, r[j].value) { assert r[j] in es; }
  }

  // ---- Records of a task ---------------------------------------------------

  /** The space the task uses for the fact's name holds it. */
  ghost predicate RecHolds(recs: seq<Rec>, f: Fact) {
    HasRec(recs, f.name) && Holds(recs[FindRec(recs, f.name)].entries, f.key, f.value)
  }

  ghost predicate RecHoldsOwn(recs: seq<Rec>, f: Fact) {
    HasRec(recs, f.name) && HoldsOwn(recs[FindRec(recs, f.name)].entries, f.key, f.value)
  }

  /** The task has a record of the name and has not destroyed it. */
  ghost predicate InUse(recs: seq<Rec>, name: string) {
    HasRec(recs, name) && !recs[FindRec(recs, name)].defunct
  }

  ghost predicate KnownRecs(b: Book, recs: seq<Rec>) {
    forall i | 0 <= i < |recs| :: KnownEntries(b, recs[i].name, recs[i].entries)
  }

  /** Of several records with one name only the first has entries. */
  ghost predicate FirstOnly(recs: seq<Rec>) {
    forall i | 0 <= i < |recs| && recs[i].entries != [] :: FindRec(recs, recs[i].name) == i
  }

  lemma SameNamesFirst(recs: seq<Rec>, r: seq<Rec>)
    requires SameNames(recs, r) && FirstOnly(recs)
    requires forall i | 0 <= i < |recs| && r[i].entries != [] ::
               recs[i].entries != [] || FindRec(recs, recs[i].name) == i
    ensures FirstOnly(r)
  {
    hide FindRec;
    forall i | 0 <= i < |r| && r[i].entries != [] ensures FindRec(r, r[i].name) == i {
      SameNamesFind(recs, r, r[i].name);
    }
  }

  lemma PutRecShape(b: Book, recs: seq<Rec>, name: string, key: string, value: string, local: bool, noDup: bool)
    requires KnownRecs(b, recs) && Known(b, name, key, value) && FirstOnly(recs)
    ensures var r := PutRec(recs, name, key, value, local, noDup);
            SameNames(recs, r) && KnownRecs(b, r) && FirstOnly(r)
  {
    hide PutEntry, FindRec, Known, KnownEntries;
    var r, i := PutRec(recs, name, key, value, local, noDup), FindRec(recs, name);
    SameNamesFirst(recs, r);
    if i < |recs| { PutEntryKnown(b, name, recs[i].entries, key, value, local, noDup); }
  }

  /** A put adds its fact if the space has a record, as an own one if it is local, and nothing else. */
  lemma PutRecFacts(b: Book, recs: seq<Rec>, name: string, key: string, value: string, local: bool, noDup: bool, f: Fact)
    requires KnownRecs(b, recs) && Known(b, name, key, value)
    ensures var r := PutRec(recs, name, key, value, local, noDup);
            && (RecHolds(r, f) <==> RecHolds(recs, f) || (HasRec(recs, name) && f == Fact(name, key, value)))
            && (RecHoldsOwn(r, f) <==>
                RecHoldsOwn(recs, f) || (local && HasRec(recs, name) && f == Fact(name, key, value)))
  {
    hide PutEntry, FindRec, Known, Holds, HoldsOwn, KnownEntries;
    var r, i := PutRec(recs, name, key, value, local, noDup), FindRec(recs, name);
    assert SameNames(recs, r);
    SameNamesFind(recs, r, f.name);
    if i < |recs| { PutEntryFacts(b, name, recs[i].entries, key, value, local, noDup, f.key, f.value); }
  }

  lemma DisableShape(b: Book, recs: seq<Rec>)
    requires KnownRecs(b, recs) && FirstOnly(recs)
    ensures SameNames(recs, Disable(recs)) && KnownRecs(b, Disable(recs)) && FirstOnly(Disable(recs))
  {
    hide FindRec;
    var r := Disable(recs);
    SameNamesFirst(recs, r);
    forall i | 0 <= i < |recs| ensures KnownEntries(b, r[i].name, r[i].entries) {
      assert KnownEntries(b, recs[i].name, recs[i].entries);
      assert forall j | 0 <= j < |r[i].entries| ::
          r[i].entries[j].key == recs[i].entries[j].key && r[i].entries[j].value == recs[i].entries[j].value;
    }
  }

  lemma DisableFacts(recs: seq<Rec>, f: Fact)
    ensures RecHolds(Disable(recs), f) <==> RecHolds(recs, f)
    ensures RecHoldsOwn(Disable(recs), f) <==> RecHoldsOwn(recs, f)
  {
    hide FindRec, Holds, HoldsOwn;
    SameNamesFind(recs, Disable(recs), f.name);
    var i := FindRec(recs, f.name);
    if i < |recs| { DisableEntryFacts(recs[i].entries, f.key, f.value); }
  }

  lemma CommittedShape(b: Book, recs: seq<Rec>, r: seq<Rec>)
    requires Committed(recs, r) && KnownRecs(b, recs) && FirstOnly(recs)
    ensures SameNames(recs, r) && KnownRecs(b, r) && FirstOnly(r)
  {
    hide FindRec, NonGlobals;
    forall i | 0 <= i < |recs|
      ensures KnownEntries(b, r[i].name, r[i].entries) && (r[i].entries != [] ==> recs[i].entries != [])
    {
      assert KnownEntries(b, recs[i].name, recs[i].entries);
      if !recs[i].defunct {
        PartitionKnown(b, recs[i].name, recs[i].entries, r[i].entries);
        SameMembers(recs[i].entries, r[i].entries);
        if r[i].entries != [] { assert r[i].entries[0] in recs[i].entries; }
      }
    }
    SameNamesFirst(recs, r);
  }

  lemma CommittedFacts(recs: seq<Rec>, r: seq<Rec>, f: Fact)
    requires Committed(recs, r)
    ensures RecHolds(r, f) <==> RecHolds(recs, f)
    ensures RecHoldsOwn(r, f) <==> RecHoldsOwn(recs, f)
  {
    hide FindRec, Holds, HoldsOwn;
    assert SameNames(recs, r);
    SameNamesFind(recs, r, f.name);
    var i := FindRec(recs, f.name);
    if i < |recs| && !recs[i].defunct { PartitionFacts(recs[i].entries, r[i].entries, f.key, f.value); }
  }

  /** A get returns exactly what the first record of the name holds, unless it was destroyed. */
  lemma GetIff(b: Book, recs: seq<Rec>, f: Fact, length: int)
    requires KnownRecs(b, recs) && FirstOnly(recs)
    ensures Get(recs, f.name, f.key, length) == Found(f.value) <==>
            InUse(recs, f.name) && RecHolds(recs, f) && |f.value| < length
  {
    hide FindRec, FindLive, FindKey;
    var i, x := FindRec(recs, f.name), FindLive(recs, f.name);
    if x < |recs| {
      var es := recs[x].entries;
      assert KnownEntries(b, recs[x].name, es);
      var j := FindKey(es, f.key);
      if j < |es| { assert Known(b, f.name, es[j].key, es[j].value); }
      if Holds(es, f.key, f.value) {
        var y :| 0 <= y < |es| && es[y].key == f.key && es[y].value == f.value;
        assert Known(b, f.name, es[y].key, es[y].value);
      }
    }
  }

  // ---- Messages ------------------------------------------------------------

  /** The message carries the fact. */
  ghost predicate Carries(msg: seq<Comm>, f: Fact) {
    exists i | 0 <= i < |msg| :: msg[i].name == f.name && Pair(f.key, f.value) in msg[i].pairs
  }

  ghost predicate KnownMsg(b: Book, msg: seq<Comm>) {
    forall i | 0 <= i < |msg| :: KnownPairs(b, msg[i].name, msg[i].pairs)
  }

  lemma CarriesAppend(a: seq<Comm>, c: seq<Comm>, f: Fact)
    ensures Carries(a + c, f) <==> Carries(a, f) || Carries(c, f)
  {
    if Carries(a, f) {
      var i :| 0 <= i < |a| && a[i].name == f.name && Pair(f.key, f.value) in a[i].pairs;
      assert (a + c)[i] == a[i];
    }
    if Carries(c, f) {
      var i :| 0 <= i < |c| && c[i].name == f.name && Pair(f.key, f.value) in c[i].pairs;
      assert (a + c)[|a| + i] == c[i];
    }
    if Carries(a + c, f) {
      var i :| 0 <= i < |a + c| && (a + c)[i].name == f.name && Pair(f.key, f.value) in (a + c)[i].pairs;
      if i < |a| { assert a[i] == (a + c)[i]; } else { assert c[i - |a|] == (a + c)[i]; }
    }
  }

  lemma {:induction false} NonGlobalsMembers(es: seq<Entry>, e: Entry)
    ensures e in NonGlobals(es) <==> e in es && e.state != Global
  {
    if es != [] {
      NonGlobalsMembers(es[1..], e);
      assert es == [es[0]] + es[1..];
    }
  }

  lemma CarriesOne(c: Comm, f: Fact)
    ensures Carries([c], f) <==> c.name == f.name && Pair(f.key, f.value) in c.pairs
  {
    assert [c][0] == c;
  }

  lemma CarriesFirst(msg: seq<Comm>, f: Fact)
    requires msg != []
    ensures Carries(msg, f) <==>
            (msg[0].name == f.name && Pair(f.key, f.value) in msg[0].pairs) || Carries(msg[1..], f)
  {
    assert msg == [msg[0]] + msg[1..];
    CarriesAppend([msg[0]], msg[1..], f);
    CarriesOne(msg[0], f);
  }

  lemma CarriesNothing(f: Fact)
    ensures !Carries([], f)
  {
  }

  /** The pairs sent for one record are its own entries. */
  lemma OwnPairs(es: seq<Entry>, key: string, value: string)
    ensures Pair(key, value) in PairsOf(NonGlobals(es)) <==> HoldsOwn(es, key, value)
  {
    hide NonGlobals;
    var ns := NonGlobals(es);
    if HoldsOwn(es, key, value) {
      var j :| 0 <= j < |es| && es[j].key == key && es[j].value == value && es[j].state != Global;
      NonGlobalsMembers(es, es[j]);
      var x :| 0 <= x < |ns| && ns[x] == es[j];
      assert PairsOf(ns)[x] == Pair(key, value);
    }
    if Pair(key, value) in PairsOf(ns) {
      var x :| 0 <= x < |ns| && PairsOf(ns)[x] == Pair(key, value);
      NonGlobalsMembers(es, ns[x]);
    }
  }

  /** The message carries a fact if and only if some live record of the name holds it as its own. */
  lemma {:induction false} CommitCarries(recs: seq<Rec>, f: Fact)
    ensures Carries(CommitMsg(recs), f) <==>
            exists i | 0 <= i < |recs| ::
              recs[i].name == f.name && !recs[i].defunct && HoldsOwn(recs[i].entries, f.key, f.value)
  {
    if recs == [] {
      CarriesNothing(f);
    } else {
      hide NonGlobals, HoldsOwn;
      var ns, rest := NonGlobals(recs[0].entries), recs[1..];
      var head := if recs[0].defunct || ns == [] then [] else [Comm(recs[0].name, PairsOf(ns))];
      assert CommitMsg(recs) == head + CommitMsg(rest);
      CarriesAppend(head, CommitMsg(rest), f);
      CommitCarries(rest, f);
      OwnPairs(recs[0].entries, f.key, f.value);
      if head != [] { CarriesOne(head[0], f); } else { CarriesNothing(f); }
      assert forall i | 0 < i < |recs| :: recs[i] == rest[i - 1];
    }
  }

  /** A commit sends exactly what its task holds as its own in spaces it has not destroyed. */
  lemma CommitSends(recs: seq<Rec>, f: Fact)
    requires FirstOnly(recs)
    ensures Carries(CommitMsg(recs), f) <==> InUse(recs, f.name) && RecHoldsOwn(recs, f)
  {
    hide FindRec, CommitMsg, Carries;
    CommitCarries(recs, f);
  }

  lemma {:induction false} CommitKnown(b: Book, recs: seq<Rec>)
    requires KnownRecs(b, recs)
    ensures KnownMsg(b, CommitMsg(recs))
  {
    if recs != [] {
      assert KnownEntries(b, recs[0].name, recs[0].entries);
      assert KnownRecs(b, recs[1..]);
      CommitKnown(b, recs[1..]);
      var ns := NonGlobals(recs[0].entries);
      forall j | 0 <= j < |ns| ensures Known(b, recs[0].name, ns[j].key, ns[j].value) {
        NonGlobalsMembers(recs[0].entries, ns[j]);
      }
    }
  }

  // ---- Receiving a snapshot ------------------------------------------------

  lemma {:induction false} ReceivePairsShape(b: Book, recs: seq<Rec>, name: string, ps: seq<Pair>, noDup: bool)
    requires KnownRecs(b, recs) && KnownPairs(b, name, ps) && FirstOnly(recs)
    ensures var r := ReceivePairs(recs, name, ps, noDup);
            SameNames(recs, r) && KnownRecs(b, r) && FirstOnly(r)
    decreases |ps|
  {
    if ps != [] {
      hide Known, KnownRecs, FirstOnly, PutRec;
      assert Known(b, name, ps[0].key, ps[0].value) && KnownPairs(b, name, ps[1..]);
      PutRecShape(b, recs, name, ps[0].key, ps[0].value, false, noDup);
      ReceivePairsShape(b, PutRec(recs, name, ps[0].key, ps[0].value, false, noDup), name, ps[1..], noDup);
    }
  }

  lemma {:induction false} ReceivePairsFacts(b: Book, recs: seq<Rec>, name: string, ps: seq<Pair>, noDup: bool, f: Fact)
    requires KnownRecs(b, recs) && KnownPairs(b, name, ps) && FirstOnly(recs)
    ensures var r := ReceivePairs(recs, name, ps, noDup);
            && (RecHolds(r, f) <==>
                RecHolds(recs, f) || (HasRec(recs, name) && f.name == name && Pair(f.key, f.value) in ps))
            && (RecHoldsOwn(r, f) <==> RecHoldsOwn(recs, f))
    decreases |ps|
  {
    if ps != [] {
      hide FindRec, Known, RecHolds, RecHoldsOwn, PutRec, KnownRecs, FirstOnly;
      var p := ps[0];
      assert Known(b, name, p.key, p.value) && KnownPairs(b, name, ps[1..]);
      PutRecShape(b, recs, name, p.key, p.value, false, noDup);
      PutRecFacts(b, recs, name, p.key, p.value, false, noDup, f);
      var r := PutRec(recs, name, p.key, p.value, false, noDup);
      SameNamesFind(recs, r, name);
      ReceivePairsFacts(b, r, name, ps[1..], noDup, f);
      assert Pair(f.key, f.value) in ps <==> Pair(f.key, f.value) == p || Pair(f.key, f.value) in ps[1..];
    }
  }

  lemma {:induction false} ReceiveAllShape(b: Book, recs: seq<Rec>, s: seq<Comm>, noDup: bool)
    requires KnownRecs(b, recs) && KnownMsg(b, s) && FirstOnly(recs)
    ensures var r := ReceiveAll(recs, s, noDup);
            SameNames(recs, r) && KnownRecs(b, r) && FirstOnly(r)
    decreases |s|
  {
    if s != [] {
      hide KnownPairs, KnownRecs, FirstOnly, ReceivePairs;
      assert KnownPairs(b, s[0].name, s[0].pairs) && KnownMsg(b, s[1..]);
      ReceivePairsShape(b, recs, s[0].name, s[0].pairs, noDup);
      ReceiveAllShape(b, ReceivePairs(recs, s[0].name, s[0].pairs, noDup), s[1..], noDup);
    }
  }

  lemma {:induction false} ReceiveAllFacts(b: Book, recs: seq<Rec>, s: seq<Comm>, noDup: bool, f: Fact)
    requires KnownRecs(b, recs) && KnownMsg(b, s) && FirstOnly(recs)
    ensures var r := ReceiveAll(recs, s, noDup);
            && (RecHolds(r, f) <==> RecHolds(recs, f) || (HasRec(recs, f.name) && Carries(s, f)))
            && (RecHoldsOwn(r, f) <==> RecHoldsOwn(recs, f))
    decreases |s|
  {
    if s == [] {
      CarriesNothing(f);
    } else {
      hide FindRec, ReceivePairs, RecHolds, RecHoldsOwn, KnownPairs, KnownRecs, FirstOnly, Carries;
      assert KnownPairs(b, s[0].name, s[0].pairs) && KnownMsg(b, s[1..]);
      ReceivePairsShape(b, recs, s[0].name, s[0].pairs, noDup);
      ReceivePairsFacts(b, recs, s[0].name, s[0].pairs, noDup, f);
      var r := ReceivePairs(recs, s[0].name, s[0].pairs, noDup);
      SameNamesFind(recs, r, f.name);
      ReceiveAllFacts(b, r, s[1..], noDup, f);
      CarriesFirst(s, f);
    }
  }

  lemma ReceiveShape(b: Book, recs: seq<Rec>, s: seq<Comm>, noDup: bool)
    requires KnownRecs(b, recs) && KnownMsg(b, s) && FirstOnly(recs)
    ensures var r := Receive(recs, s, noDup);
            SameNames(recs, r) && KnownRecs(b, r) && FirstOnly(r)
  {
    hide KnownRecs, KnownMsg, FirstOnly, ReceiveAll;
    DisableShape(b, recs);
    ReceiveAllShape(b, Disable(recs), s, noDup);
  }

  /** A barrier adds exactly the facts of its snapshot whose space has a record, none of them as the task's own. */
  lemma ReceivedIff(b: Book, recs: seq<Rec>, s: seq<Comm>, noDup: bool, f: Fact)
    requires KnownRecs(b, recs) && KnownMsg(b, s) && FirstOnly(recs)
    ensures var r := Receive(recs, s, noDup);
            && (RecHolds(r, f) <==> RecHolds(recs, f) || (HasRec(recs, f.name) && Carries(s, f)))
            && (RecHoldsOwn(r, f) <==> RecHoldsOwn(recs, f))
  {
    hide KnownRecs, KnownMsg, RecHolds, RecHoldsOwn, FindRec, FirstOnly, ReceiveAll, Carries;
    DisableShape(b, recs);
    DisableFacts(recs, f);
    ReceiveAllFacts(b, Disable(recs), s, noDup, f);
    SameNamesFind(recs, Disable(recs), f.name);
  }

  // ---- The server's facts --------------------------------------------------

  ghost predicate HasFact(ks: seq<Kvs>, f: Fact) {
    exists i | 0 <= i < |ks| :: ks[i].name == f.name && Pair(f.key, f.value) in ks[i].pairs
  }

  ghost predicate UnsentIn(t: Table, q: Pair)
    requires |t.pairs| == |t.sent|
  {
    exists j | 0 <= j < |t.pairs| :: t.pairs[j] == q && !t.sent[j]
  }

  /** The server has the fact and the next snapshot will carry it. */
  ghost predicate HasUnsent(ks: seq<Kvs>, f: Fact)
    requires AllShaped(ks)
  {
    exists i | 0 <= i < |ks| :: ks[i].name == f.name && UnsentIn(TableOf(ks[i]), Pair(f.key, f.value))
  }

  ghost predicate KnownKvs(b: Book, ks: seq<Kvs>) {
    forall i | 0 <= i < |ks| :: KnownPairs(b, ks[i].name, ks[i].pairs)
  }

  lemma MergeOneFacts(b: Book, name: string, t: Table, p: Pair, noDup: bool, q: Pair)
    requires |t.pairs| == |t.sent| && KnownPairs(b, name, t.pairs) && Known(b, name, p.key, p.value)
    ensures var r := MergeOne(t, p, noDup);
            && KnownPairs(b, name, r.pairs)
            && (q in r.pairs <==> q in t.pairs || q == p)
            && (UnsentIn(r, q) <==> UnsentIn(t, q) || q == p)
  {
    hide FindPair;
    var r, j := MergeOne(t, p, noDup), FindPair(t.pairs, p.key);
    var x := if noDup then |t.pairs| else j;
    assert r.pairs[x] == p && !r.sent[x];
    if x < |t.pairs| {
      assert Known(b, name, t.pairs[x].key, t.pairs[x].value);
      assert r.pairs == t.pairs;
    }
    if UnsentIn(t, q) {
      var y :| 0 <= y < |t.pairs| && t.pairs[y] == q && !t.sent[y];
      assert r.pairs[y] == q && !r.sent[y];
    }
    if UnsentIn(r, q) {
      var y :| 0 <= y < |r.pairs| && r.pairs[y] == q && !r.sent[y];
      assert y == x || (t.pairs[y] == q && !t.sent[y]);
    }
  }

  lemma {:induction false} MergeAllFacts(b: Book, name: string, t: Table, ps: seq<Pair>, noDup: bool, q: Pair)
    requires |t.pairs| == |t.sent| && KnownPairs(b, name, t.pairs) && KnownPairs(b, name, ps)
    ensures var r := MergeAll(t, ps, noDup);
            && KnownPairs(b, name, r.pairs)
            && (q in r.pairs <==> q in t.pairs || q in ps)
            && (UnsentIn(r, q) <==> UnsentIn(t, q) || q in ps)
    decreases |ps|
  {
    if ps != [] {
      hide UnsentIn, MergeOne, Known;
      assert Known(b, name, ps[0].key, ps[0].value) && KnownPairs(b, name, ps[1..]);
      MergeOneFacts(b, name, t, ps[0], noDup, q);
      MergeAllFacts(b, name, MergeOne(t, ps[0], noDup), ps[1..], noDup, q);
      assert q in ps <==> q == ps[0] || q in ps[1..];
    }
  }

  lemma MergedFacts(b: Book, k: Kvs, ps: seq<Pair>, noDup: bool, q: Pair)
    requires Shaped(k) && KnownPairs(b, k.name, k.pairs) && KnownPairs(b, k.name, ps)
    ensures var r := Merged(k, ps, noDup);
            && r.name == k.name && KnownPairs(b, r.name, r.pairs)
            && (q in r.pairs <==> q in k.pairs || q in ps)
            && (UnsentIn(TableOf(r), q) <==> UnsentIn(TableOf(k), q) || q in ps)
  {
    hide MergeAll, Known;
    MergeAllFacts(b, k.name, TableOf(k), ps, noDup, q);
    if k.sent.Unset? { UnsetUnsent(k, ps, noDup, q); }
  }

  /** Without a flag table everything is unsent, before and after. */
  lemma UnsetUnsent(k: Kvs, ps: seq<Pair>, noDup: bool, q: Pair)
    requires k.sent.Unset?
    ensures UnsentIn(TableOf(Merged(k, ps, noDup)), q) <==> q in Merged(k, ps, noDup).pairs
    ensures UnsentIn(TableOf(k), q) <==> q in k.pairs
  {
    hide MergeAll;
    var r := Merged(k, ps, noDup);
    assert forall j | 0 <= j < |r.pairs| :: !SentOf(r)[j];
    assert forall j | 0 <= j < |k.pairs| :: !SentOf(k)[j];
  }

  lemma TakenOver(c: Comm, q: Pair)
    ensures UnsentIn(TableOf(Kvs(c.name, c.pairs, Unset)), q) <==> q in c.pairs
  {
    var k := Kvs(c.name, c.pairs, Unset);
    assert forall j | 0 <= j < |k.pairs| :: !SentOf(k)[j];
  }

  /** One list of a put adds exactly its facts, all to be sent. */
  lemma PutCommFacts(b: Book, ks: seq<Kvs>, c: Comm, noDup: bool, f: Fact)
    requires AllShaped(ks) && KnownKvs(b, ks) && KnownPairs(b, c.name, c.pairs)
    ensures var r := PutComm(ks, c, noDup);
            && KnownKvs(b, r)
            && (HasFact(r, f) <==> HasFact(ks, f) || Carries([c], f))
            && (HasUnsent(r, f) <==> HasUnsent(ks, f) || Carries([c], f))
  {
    hide Merged, FindKvs, KnownPairs, Carries, UnsentIn, TableOf;
    var r, i := PutComm(ks, c, noDup), FindKvs(ks, c.name);
    var q := Pair(f.key, f.value);
    CarriesOne(c, f);
    if i < |ks| {
      MergedFacts(b, ks[i], c.pairs, noDup, q);
      assert r[i].name == ks[i].name && forall x | 0 <= x < |ks| && x != i :: r[x] == ks[x];
      assert HasFact(r, f) <==> HasFact(ks, f) || (c.name == f.name && q in c.pairs) by { FactAt(ks, r, i, f); }
      UnsentAt(ks, r, i, f);
    } else {
      TakenOver(c, q);
      assert r[i] == Kvs(c.name, c.pairs, Unset) && forall x | 0 <= x < |ks| :: r[x] == ks[x];
    }
  }

  /** Only the space at i differs. */
  lemma FactAt(ks: seq<Kvs>, r: seq<Kvs>, i: nat, f: Fact)
    requires i < |ks| == |r| && ks[i].name == r[i].name && forall x | 0 <= x < |ks| && x != i :: r[x] == ks[x]
    requires Pair(f.key, f.value) in ks[i].pairs ==> Pair(f.key, f.value) in r[i].pairs
    ensures HasFact(r, f) <==> HasFact(ks, f) || (ks[i].name == f.name && Pair(f.key, f.value) in r[i].pairs)
  {
    if HasFact(ks, f) {
      var x :| 0 <= x < |ks| && ks[x].name == f.name && Pair(f.key, f.value) in ks[x].pairs;
      assert r[x].name == f.name;
    }
    if HasFact(r, f) {
      var x :| 0 <= x < |r| && r[x].name == f.name && Pair(f.key, f.value) in r[x].pairs;
      assert x != i ==> ks[x].name == f.name;
    }
  }

  lemma UnsentAt(ks: seq<Kvs>, r: seq<Kvs>, i: nat, f: Fact)
    requires AllShaped(ks) && AllShaped(r)
    requires i < |ks| == |r| && ks[i].name == r[i].name && forall x | 0 <= x < |ks| && x != i :: r[x] == ks[x]
    requires UnsentIn(TableOf(ks[i]), Pair(f.key, f.value)) ==> UnsentIn(TableOf(r[i]), Pair(f.key, f.value))
    ensures HasUnsent(r, f) <==> HasUnsent(ks, f) || (ks[i].name == f.name && UnsentIn(TableOf(r[i]), Pair(f.key, f.value)))
  {
    hide UnsentIn, TableOf;
    if HasUnsent(ks, f) {
      var x :| 0 <= x < |ks| && ks[x].name == f.name && UnsentIn(TableOf(ks[x]), Pair(f.key, f.value));
      assert r[x].name == f.name;
    }
    if HasUnsent(r, f) {
      var x :| 0 <= x < |r| && r[x].name == f.name && UnsentIn(TableOf(r[x]), Pair(f.key, f.value));
      assert x != i ==> ks[x].name == f.name;
    }
  }

  /** A put adds exactly the facts of its message, all to be sent, even those sent before. */
  lemma {:induction false} PutSetFacts(b: Book, ks: seq<Kvs>, msg: seq<Comm>, noDup: bool, f: Fact)
    requires AllShaped(ks) && KnownKvs(b, ks) && KnownMsg(b, msg)
    ensures var r := PutSet(ks, msg, noDup);
            && KnownKvs(b, r)
            && (HasFact(r, f) <==> HasFact(ks, f) || Carries(msg, f))
            && (HasUnsent(r, f) <==> HasUnsent(ks, f) || Carries(msg, f))
    decreases |msg|
  {
    if msg == [] {
      CarriesNothing(f);
    } else {
      hide PutComm, KnownPairs, KnownKvs, HasFact, HasUnsent, Carries;
      assert KnownPairs(b, msg[0].name, msg[0].pairs) && KnownMsg(b, msg[1..]);
      PutCommFacts(b, ks, msg[0], noDup, f);
      PutSetFacts(b, PutComm(ks, msg[0], noDup), msg[1..], noDup, f);
      CarriesFirst(msg, f);
      CarriesOne(msg[0], f);
    }
  }

  lemma {:induction false} UnsentMembers(ps: seq<Pair>, f: seq<bool>, q: Pair)
    requires |ps| == |f|
    ensures q in Unsent(ps, f) <==> exists j | 0 <= j < |ps| :: ps[j] == q && !f[j]
    decreases |ps|
  {
    if ps != [] {
      UnsentMembers(ps[1..], f[1..], q);
      if j :| 0 <= j < |ps[1..]| && ps[1..][j] == q && !f[1..][j] { assert ps[j + 1] == q && !f[j + 1]; }
      if j :| 0 <= j < |ps| && ps[j] == q && !f[j] {
        if j > 0 { assert ps[1..][j - 1] == q && !f[1..][j - 1]; }
      }
    }
  }

  /** The snapshot carries exactly the facts that are to be sent. */
  lemma SnapshotCarries(ks: seq<Kvs>, f: Fact)
    requires AllShaped(ks)
    ensures Carries(Snapshot(ks), f) <==> HasUnsent(ks, f)
  {
    hide Unsent;
    var s, q := Snapshot(ks), Pair(f.key, f.value);
    forall i | 0 <= i < |ks| ensures q in s[i].pairs <==> UnsentIn(TableOf(ks[i]), q) {
      UnsentMembers(ks[i].pairs, SentOf(ks[i]), q);
    }
    assert forall i | 0 <= i < |ks| :: s[i].name == ks[i].name;
  }

  /** Afterwards nothing is left to be sent, and the facts are the same. */
  lemma MarkSentFacts(ks: seq<Kvs>, f: Fact)
    ensures !HasUnsent(MarkSent(ks), f)
    ensures HasFact(MarkSent(ks), f) <==> HasFact(ks, f)
  {
    var r := MarkSent(ks);
    assert forall i | 0 <= i < |ks| :: r[i].name == ks[i].name && r[i].pairs == ks[i].pairs;
    forall i | 0 <= i < |r| ensures !UnsentIn(TableOf(r[i]), Pair(f.key, f.value)) {
      assert forall j | 0 <= j < |r[i].pairs| :: SentOf(r[i])[j];
    }
  }

  lemma SnapshotKnown(b: Book, ks: seq<Kvs>)
    requires AllShaped(ks) && KnownKvs(b, ks)
    ensures KnownMsg(b, Snapshot(ks))
  {
    hide Unsent;
    var s := Snapshot(ks);
    forall i | 0 <= i < |s| ensures KnownPairs(b, s[i].name, s[i].pairs) {
      assert KnownPairs(b, ks[i].name, ks[i].pairs);
      forall j | 0 <= j < |s[i].pairs| ensures Known(b, s[i].name, s[i].pairs[j].key, s[i].pairs[j].value) {
        UnsentMembers(ks[i].pairs, SentOf(ks[i]), s[i].pairs[j]);
      }
    }
  }
}
