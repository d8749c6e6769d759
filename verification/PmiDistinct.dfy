/**
 Key modes of PMI-1.  Each task and the server reads its mode from its own
 environment.  A task that allows duplicates keeps the keys of a space distinct;
 one that does not sends its puts as they were made.  So a commit makes the
 server write outside a flag table exactly when the server allows duplicates,
 the task does not, and it has put a key twice that the table lacks.
 */
module PmiDistinct {
  import opened PmiClient
  import opened PmiServer
  import opened PmiFacts
  import opened PmiSystem
  import opened PmiSteps
  import opened PmiVisibility

  // ---- Tasks that allow duplicates -----------------------------------------

  ghost predicate DistinctEntries(es: seq<Entry>) {
    forall a, b | 0 <= a < b < |es| :: es[a].key != es[b].key
  }

  ghost predicate DistinctRecs(recs: seq<Rec>) {
    forall i | 0 <= i < |recs| :: DistinctEntries(recs[i].entries)
  }

  lemma PutRecDistinct(recs: seq<Rec>, name: string, key: string, value: string, local: bool)
    requires DistinctRecs(recs)
    ensures DistinctRecs(PutRec(recs, name, key, value, local, false))
  {
    hide FindRec, FindKey;
    var i := FindRec(recs, name);
    if i < |recs| { assert DistinctEntries(recs[i].entries); }
  }

  lemma {:induction false} ReceivePairsDistinct(recs: seq<Rec>, name: string, ps: seq<Pair>)
    requires DistinctRecs(recs)
    ensures DistinctRecs(ReceivePairs(recs, name, ps, false))
    decreases |ps|
  {
    if ps != [] {
      PutRecDistinct(recs, name, ps[0].key, ps[0].value, false);
      ReceivePairsDistinct(PutRec(recs, name, ps[0].key, ps[0].value, false, false), name, ps[1..]);
    }
  }

  lemma {:induction false} ReceiveAllDistinct(recs: seq<Rec>, s: seq<Comm>)
    requires DistinctRecs(recs)
    ensures DistinctRecs(ReceiveAll(recs, s, false))
    decreases |s|
  {
    if s != [] {
      ReceivePairsDistinct(recs, s[0].name, s[0].pairs);
      ReceiveAllDistinct(ReceivePairs(recs, s[0].name, s[0].pairs, false), s[1..]);
    }
  }

  lemma DisableDistinct(recs: seq<Rec>)
    requires DistinctRecs(recs)
    ensures DistinctRecs(Disable(recs))
  {
    forall i | 0 <= i < |recs| ensures DistinctEntries(Disable(recs)[i].entries) {
      assert DistinctEntries(recs[i].entries);
    }
  }

  /** Keys are distinct when no key occurs twice as a multiset. */
  lemma PartitionDistinct(es: seq<Entry>, r: seq<Entry>)
    requires DistinctEntries(es) && multiset(r) == multiset(es)
    ensures DistinctEntries(r)
  {
    SameMembers(es, r);
    forall a, b | 0 <= a < b < |r| ensures r[a].key != r[b].key {
      assert r[a] in es && r[b] in es;
      if r[a].key == r[b].key {
        var x :| 0 <= x < |es| && es[x] == r[a];
        var y :| 0 <= y < |es| && es[y] == r[b];
        assert x == y;
        TwiceInMultiset(r, a, b);
        OnceInMultiset(es, x);
      }
    }
  }

  lemma TwiceInMultiset(r: seq<Entry>, a: nat, b: nat)
    requires a < b < |r| && r[a] == r[b]
    ensures multiset(r)[r[a]] >= 2
  {
    assert r == r[..b] + [r[b]] + r[b + 1..];
    assert r[..b][a] == r[a];
    assert multiset(r) == multiset(r[..b]) + multiset{r[b]} + multiset(r[b + 1..]);
  }

  lemma OnceInMultiset(es: seq<Entry>, x: nat)
    requires DistinctEntries(es) && x < |es|
    ensures multiset(es)[es[x]] == 1
  {
    assert es == es[..x] + [es[x]] + es[x + 1..];
    assert multiset(es) == multiset(es[..x]) + multiset{es[x]} + multiset(es[x + 1..]);
    assert es[x] !in es[..x] && es[x] !in es[x + 1..];
  }

  lemma {:induction false} NonGlobalsDistinct(es: seq<Entry>)
    requires DistinctEntries(es)
    ensures DistinctEntries(NonGlobals(es))
  {
    if es != [] {
      NonGlobalsDistinct(es[1..]);
      forall j | 0 <= j < |NonGlobals(es[1..])| ensures NonGlobals(es[1..])[j].key != es[0].key {
        NonGlobalsMembers(es[1..], NonGlobals(es[1..])[j]);
      }
    }
  }

  lemma {:induction false} CommitMsgDistinct(recs: seq<Rec>)
    requires DistinctRecs(recs)
    ensures forall i | 0 <= i < |CommitMsg(recs)| :: DistinctKeys(CommitMsg(recs)[i].pairs)
  {
    if recs != [] {
      assert DistinctEntries(recs[0].entries);
      NonGlobalsDistinct(recs[0].entries);
      CommitMsgDistinct(recs[1..]);
    }
  }

  // ---- Tasks that do not ---------------------------------------------------

  /** The pairs put into a space, in order. */
  function PutsTo(puts: seq<Fact>, name: string): seq<Pair> {
    if puts == [] then []
    else
      var f := puts[|puts| - 1];
      PutsTo(puts[..|puts| - 1], name) + if f.name == name then [Pair(f.key, f.value)] else []
  }

  lemma {:induction false} PutsToNone(puts: seq<Fact>, name: string)
    requires forall f | f in puts :: f.name != name
    ensures PutsTo(puts, name) == []
  {
    if puts != [] { PutsToNone(puts[..|puts| - 1], name); }
  }

  ghost predicate OwnAre(es: seq<Entry>, ps: seq<Pair>) { PairsOf(NonGlobals(es)) == ps }

  /** What each record would send is what was put into its space. */
  ghost predicate OwnRight(recs: seq<Rec>, puts: seq<Fact>) {
    forall i | 0 <= i < |recs| && FindRec(recs, recs[i].name) == i :: OwnAre(recs[i].entries, PutsTo(puts, recs[i].name))
  }

  lemma AppendOwn(es: seq<Entry>, e: Entry, ps: seq<Pair>)
    requires OwnAre(es, ps)
    ensures OwnAre(es + [e], ps + if e.state == Global then [] else [Pair(e.key, e.value)])
  {
    hide NonGlobals;
    var r := es + [e];
    NonGlobalsSnoc(r, |es|);
    assert r[..|es|] == es && r[..|es| + 1] == r;
  }

  lemma {:induction false} DisableOwn(es: seq<Entry>)
    ensures PairsOf(NonGlobals(DisabledEntries(es))) == PairsOf(NonGlobals(es))
  {
    if es != [] {
      DisableOwn(es[1..]);
      var d, r := DisabledEntries(es), DisabledEntries(es[1..]);
      assert d[1..] == r;
      PairsOfFirst(d[0], NonGlobals(r));
      PairsOfFirst(es[0], NonGlobals(es[1..]));
    }
  }

  lemma PairsOfFirst(e: Entry, es: seq<Entry>)
    ensures PairsOf([e] + es) == [Pair(e.key, e.value)] + PairsOf(es)
    ensures PairsOf([] + es) == PairsOf(es)
  {
    assert [] + es == es;
  }

  lemma {:induction false} GlobalsOnly(es: seq<Entry>)
    requires forall j | 0 <= j < |es| :: es[j].state == Global
    ensures NonGlobals(es) == []
  {
    if es != [] { GlobalsOnly(es[1..]); }
  }

  lemma {:induction false} NonGlobalsFront(ns: seq<Entry>, gs: seq<Entry>)
    requires forall j | 0 <= j < |ns| :: ns[j].state != Global
    requires forall j | 0 <= j < |gs| :: gs[j].state == Global
    ensures NonGlobals(ns + gs) == ns
  {
    if ns == [] {
      assert ns + gs == gs;
      GlobalsOnly(gs);
    } else {
      NonGlobalsFront(ns[1..], gs);
      assert (ns + gs)[1..] == ns[1..] + gs;
    }
  }

  lemma PartitionOwn(es: seq<Entry>, r: seq<Entry>)
    requires Partitioned(es, r)
    ensures NonGlobals(r) == NonGlobals(es)
  {
    hide NonGlobals;
    var ns := NonGlobals(es);
    forall j | 0 <= j < |ns| ensures ns[j].state != Global { NonGlobalsMembers(es, ns[j]); }
    NonGlobalsFront(ns, r[|ns|..]);
    assert r == ns + r[|ns|..];
  }

  /** Records of the same names whose own pairs are the same stay right. */
  lemma SameOwn(recs: seq<Rec>, r: seq<Rec>, puts: seq<Fact>)
    requires OwnRight(recs, puts) && SameNames(recs, r)
    requires forall i | 0 <= i < |recs| :: PairsOf(NonGlobals(r[i].entries)) == PairsOf(NonGlobals(recs[i].entries))
    ensures OwnRight(r, puts)
  {
    hide FindRec, NonGlobals, PutsTo;
    forall i | 0 <= i < |r| && FindRec(r, r[i].name) == i ensures OwnAre(r[i].entries, PutsTo(puts, r[i].name)) {
      SameNamesFind(recs, r, r[i].name);
      assert OwnAre(recs[i].entries, PutsTo(puts, recs[i].name));
    }
  }

  lemma PutOwn(recs: seq<Rec>, puts: seq<Fact>, name: string, key: string, value: string)
    requires OwnRight(recs, puts)
    ensures OwnRight(PutRec(recs, name, key, value, true, true), puts + [Fact(name, key, value)])
  {
    hide FindRec, OwnAre, PutsTo;
    var r, q, x := PutRec(recs, name, key, value, true, true), puts + [Fact(name, key, value)], FindRec(recs, name);
    forall i | 0 <= i < |r| && FindRec(r, r[i].name) == i ensures OwnAre(r[i].entries, PutsTo(q, r[i].name)) {
      SameNamesFind(recs, r, r[i].name);
      PutsToSnoc(puts, Fact(name, key, value), r[i].name);
      assert OwnAre(recs[i].entries, PutsTo(puts, recs[i].name));
      if i == x {
        AppendOwn(recs[i].entries, Entry(key, value, Local), PutsTo(puts, name));
        assert r[i].entries == recs[i].entries + [Entry(key, value, Local)];
      } else {
        assert r[i] == recs[i] && PutsTo(puts, r[i].name) + [] == PutsTo(puts, r[i].name);
      }
    }
  }

  lemma PutsToSnoc(puts: seq<Fact>, f: Fact, name: string)
    ensures PutsTo(puts + [f], name) == PutsTo(puts, name) + if f.name == name then [Pair(f.key, f.value)] else []
  {
    assert (puts + [f])[..|puts|] == puts;
  }

  lemma GlobalPutOwn(recs: seq<Rec>, puts: seq<Fact>, name: string, key: string, value: string)
    requires OwnRight(recs, puts)
    ensures OwnRight(PutRec(recs, name, key, value, false, true), puts)
  {
    hide FindRec, NonGlobals;
    var r, x := PutRec(recs, name, key, value, false, true), FindRec(recs, name);
    if x < |recs| {
      AppendOwn(recs[x].entries, Entry(key, value, Global), PairsOf(NonGlobals(recs[x].entries)));
    }
    SameOwn(recs, r, puts);
  }

  lemma {:induction false} ReceivePairsOwn(recs: seq<Rec>, puts: seq<Fact>, name: string, ps: seq<Pair>)
    requires OwnRight(recs, puts)
    ensures OwnRight(ReceivePairs(recs, name, ps, true), puts)
    decreases |ps|
  {
    if ps != [] {
      hide OwnRight, PutRec;
      GlobalPutOwn(recs, puts, name, ps[0].key, ps[0].value);
      ReceivePairsOwn(PutRec(recs, name, ps[0].key, ps[0].value, false, true), puts, name, ps[1..]);
    }
  }

  lemma {:induction false} ReceiveAllOwn(recs: seq<Rec>, puts: seq<Fact>, s: seq<Comm>)
    requires OwnRight(recs, puts)
    ensures OwnRight(ReceiveAll(recs, s, true), puts)
    decreases |s|
  {
    if s != [] {
      hide OwnRight, ReceivePairs;
      ReceivePairsOwn(recs, puts, s[0].name, s[0].pairs);
      ReceiveAllOwn(ReceivePairs(recs, s[0].name, s[0].pairs, true), puts, s[1..]);
    }
  }

  lemma CreateOwn(k: Rank, name: string)
    requires OwnRight(k.recs, k.puts) && forall f | f in k.puts :: HasRec(k.recs, f.name)
    ensures OwnRight(Created(k, name).recs, k.puts)
  {
    hide FindRec, PutsTo;
    var x := Rec(name, false, []);
    var r := k.recs + [x];
    forall i | 0 <= i < |r| && FindRec(r, r[i].name) == i ensures OwnAre(r[i].entries, PutsTo(k.puts, r[i].name)) {
      FindAppended(k.recs, x, r[i].name);
      if i < |k.recs| {
        assert r[i] == k.recs[i];
        assert OwnAre(k.recs[i].entries, PutsTo(k.puts, k.recs[i].name));
      } else {
        PutsToNone(k.puts, name);
      }
    }
  }

  // ---- All runs ------------------------------------------------------------

  ghost predicate ModeRight(k: Rank) {
    if k.noDup then OwnRight(k.recs, k.puts) else DistinctRecs(k.recs)
  }

  lemma CommitMode(k: Rank, recs: seq<Rec>)
    requires ModeRight(k) && Committed(k.recs, recs)
    ensures ModeRight(k.(recs := recs))
  {
    hide NonGlobals, FindRec, OwnAre;
    forall i | 0 <= i < |recs|
      ensures !k.noDup ==> DistinctEntries(recs[i].entries)
      ensures PairsOf(NonGlobals(recs[i].entries)) == PairsOf(NonGlobals(k.recs[i].entries))
    {
      if !k.recs[i].defunct {
        PartitionOwn(k.recs[i].entries, recs[i].entries);
        if !k.noDup {
          assert DistinctEntries(k.recs[i].entries);
          PartitionDistinct(k.recs[i].entries, recs[i].entries);
        }
      }
    }
    if k.noDup { SameOwn(k.recs, recs, k.puts); }
  }

  lemma ReturnMode(k: Rank, snapshot: seq<Comm>)
    requires ModeRight(k)
    ensures ModeRight(Returned(k, snapshot))
  {
    hide OwnRight, DistinctRecs, ReceiveAll, NonGlobals;
    if k.noDup {
      forall i | 0 <= i < |k.recs|
        ensures PairsOf(NonGlobals(Disable(k.recs)[i].entries)) == PairsOf(NonGlobals(k.recs[i].entries))
      {
        DisableOwn(k.recs[i].entries);
      }
      SameOwn(k.recs, Disable(k.recs), k.puts);
      ReceiveAllOwn(Disable(k.recs), k.puts, snapshot);
    } else {
      DisableDistinct(k.recs);
      ReceiveAllDistinct(Disable(k.recs), snapshot);
    }
  }

  lemma DestroyMode(k: Rank, name: string)
    requires ModeRight(k)
    ensures ModeRight(k.(recs := MarkDefunct(k.recs, name)))
  {
    hide FindRec, NonGlobals, OwnRight;
    if k.noDup { SameOwn(k.recs, MarkDefunct(k.recs, name), k.puts); }
  }

  lemma CreateMode(k: Rank, name: string, log: seq<seq<Comm>>)
    requires ModeRight(k) && RankRight(k, log)
    ensures ModeRight(Created(k, name))
  {
    hide FindRec, OwnRight, FirstOnly, RecHolds, Delivered;
    forall f | f in k.puts ensures HasRec(k.recs, f.name) { assert RecHoldsOwn(k.recs, f); }
    if k.noDup { CreateOwn(k, name); }
  }

  lemma PutMode(k: Rank, name: string, key: string, value: string)
    requires ModeRight(k)
    ensures ModeRight(PutLocal(k, name, key, value))
  {
    hide PutRec, OwnRight, DistinctRecs;
    if k.noDup { PutOwn(k.recs, k.puts, name, key, value); } else { PutRecDistinct(k.recs, name, key, value, true); }
  }

  ghost predicate ModesRight(s: Sys) { forall r | 0 <= r < |s.ranks| :: ModeRight(s.ranks[r]) }

  lemma RankMode(k: Rank, a: Action, log: seq<seq<Comm>>)
    requires ModeRight(k) && RankRight(k, log)
    requires (a.Return? ==> k.returned < |log|) && (a.Commit? ==> Committed(k.recs, a.recs))
    ensures ModeRight(RankAfter(k, a, log))
  {
    hide ModeRight, RankRight, Committed, PutRec, Receive;
    match a
    case Create(_, name) => CreateMode(k, name, log);
    case Put(_, name, key, value) => PutMode(k, name, key, value);
    case Commit(_, recs) => CommitMode(k, recs);
    case Destroy(_, name) => DestroyMode(k, name);
    case Enter(_, _, _) => EnterMode(k);
    case Return(_) => ReturnMode(k, log[k.returned]);
  }

  lemma CommitEnabled(s: Sys, a: Action)
    requires Shape(s) && Enabled(s, a) && a.Commit?
    ensures a.r < |s.ranks| && Committed(s.ranks[a.r].recs, a.recs)
  {
  }

  lemma StepMode(s: Sys, a: Action)
    requires Inv(s) && ModesRight(s) && Enabled(s, a)
    ensures ModesRight(Step(s, a))
  {
    StepRanks(s, a);
    InvRank(s, a.r);
    if a.Commit? { CommitEnabled(s, a); }
    hide Step, Enabled, Inv, ModeRight, RankRight, KnownRecs, RankAfter, Committed;
    RankMode(s.ranks[a.r], a, s.log);
  }

  lemma EnterMode(k: Rank)
    requires ModeRight(k)
    ensures ModeRight(k.(entered := k.entered + 1))
  {
  }

  lemma StartModes(s: Sys)
    requires Start(s)
    ensures ModesRight(s)
  {
  }

  lemma {:induction false} RunModes(trace: seq<Sys>, i: nat)
    requires Run(trace) && i < |trace|
    ensures ModesRight(trace[i])
  {
    hide Step, Enabled, Start, ModesRight, Inv;
    if i == 0 {
      StartModes(trace[0]);
    } else {
      RunInv(trace, i - 1);
      RunModes(trace, i - 1);
      assert Next(trace[i - 1], trace[i]);
      var a: Action :| Enabled(trace[i - 1], a) && trace[i] == Step(trace[i - 1], a);
      StepMode(trace[i - 1], a);
    }
  }

  /** A task that allows duplicates sends lists with distinct keys, in every run and whatever the server's mode. */
  lemma CommitsAdmissible(trace: seq<Sys>, i: nat, r: nat)
    requires Run(trace) && i < |trace| && r < |trace[i].ranks| && !trace[i].ranks[r].noDup
    ensures var msg := CommitMsg(trace[i].ranks[r].recs);
            forall j | 0 <= j < |msg| :: DistinctKeys(msg[j].pairs)
  {
    hide Run, DistinctKeys;
    RunModes(trace, i);
    assert ModeRight(trace[i].ranks[r]);
    CommitMsgDistinct(trace[i].ranks[r].recs);
  }

  // ---- When the server overruns --------------------------------------------

  ghost predicate DistinctLists(msg: seq<Comm>) {
    forall a, b | 0 <= a < b < |msg| :: msg[a].name != msg[b].name
  }

  /** A list does not change what another space's list does. */
  lemma OtherList(ks: seq<Kvs>, c: Comm, d: Comm, noDup: bool)
    requires AllShaped(ks) && c.name != d.name
    ensures ListOverruns(PutComm(ks, c, noDup), d, noDup) <==> ListOverruns(ks, d, noDup)
  {
    hide FindKvs, MergeAll, RepeatsNewKey;
    var r := PutComm(ks, c, noDup);
    var x, i, y := FindKvs(ks, c.name), FindKvs(ks, d.name), FindKvs(r, d.name);
    assert x < |ks| ==> r[x].name == c.name && forall z | 0 <= z < |ks| && z != x :: r[z] == ks[z];
    assert x == |ks| ==> r[x].name == c.name && forall z | 0 <= z < |ks| :: r[z] == ks[z];
    if i < |ks| {
      assert r[i] == ks[i];
    }
    assert y < i ==> r[y].name != d.name;
  }

  lemma {:induction false} OverrunsIff(ks: seq<Kvs>, msg: seq<Comm>, noDup: bool)
    requires AllShaped(ks) && DistinctLists(msg)
    ensures Overruns(ks, msg, noDup) <==> exists j | 0 <= j < |msg| :: ListOverruns(ks, msg[j], noDup)
    decreases |msg|
  {
    if msg != [] {
      hide ListOverruns, PutComm;
      var rest, r := msg[1..], PutComm(ks, msg[0], noDup);
      assert forall j | 0 <= j < |rest| :: rest[j] == msg[j + 1];
      forall j | 0 <= j < |rest| ensures ListOverruns(r, rest[j], noDup) <==> ListOverruns(ks, rest[j], noDup) {
        OtherList(ks, msg[0], rest[j], noDup);
      }
      OverrunsIff(r, rest, noDup);
      if j :| 0 <= j < |msg| && ListOverruns(ks, msg[j], noDup) {
        if j > 0 { assert ListOverruns(r, rest[j - 1], noDup); }
      }
    }
  }

  /** The lists of a commit message, one for each live record that has something to send. */
  lemma {:induction false} CommitLists(recs: seq<Rec>, c: Comm)
    ensures c in CommitMsg(recs) <==>
            exists i | 0 <= i < |recs| ::
              !recs[i].defunct && NonGlobals(recs[i].entries) != []
              && c == Comm(recs[i].name, PairsOf(NonGlobals(recs[i].entries)))
  {
    if recs != [] {
      hide NonGlobals;
      CommitLists(recs[1..], c);
      assert forall i | 0 < i < |recs| :: recs[i] == recs[1..][i - 1];
    }
  }

  lemma FirstOnlyTail(recs: seq<Rec>)
    requires recs != [] && FirstOnly(recs)
    ensures FirstOnly(recs[1..])
    ensures recs[0].entries != [] ==> forall i | 0 < i < |recs| && recs[i].entries != [] :: recs[i].name != recs[0].name
  {
    var t := recs[1..];
    forall i | 0 <= i < |t| && t[i].entries != [] ensures FindRec(t, t[i].name) == i {
      assert t[i] == recs[i + 1] && FindRec(recs, recs[i + 1].name) == i + 1;
    }
  }

  lemma {:induction false} CommitNames(recs: seq<Rec>)
    requires FirstOnly(recs)
    ensures DistinctLists(CommitMsg(recs))
  {
    if recs != [] {
      FirstOnlyTail(recs);
      hide FirstOnly, FindRec;
      CommitNames(recs[1..]);
      var rest := CommitMsg(recs[1..]);
      if !recs[0].defunct && NonGlobals(recs[0].entries) != [] {
        forall b | 0 <= b < |rest| ensures rest[b].name != recs[0].name {
          CommitLists(recs[1..], rest[b]);
          var i :| 0 <= i < |recs[1..]| && NonGlobals(recs[1..][i].entries) != [] && rest[b].name == recs[1..][i].name;
          assert recs[1..][i] == recs[i + 1];
        }
      }
    }
  }

  /** Distinct keys repeat none. */
  lemma DistinctNoRepeat(ps: seq<Pair>, puts: seq<Pair>)
    requires DistinctKeys(puts)
    ensures !RepeatsNewKey(ps, puts)
  {
  }

  /** The task has the space in use and has twice put a key that the server's flagged table of it lacks. */
  ghost predicate RepeatsInto(ks: seq<Kvs>, k: Rank, name: string) {
    InUse(k.recs, name) && ListOverruns(ks, Comm(name, PutsTo(k.puts, name)), false)
  }

  /**
   In every run a commit makes the server write beyond a flag table if and only
   if the server allows duplicates, the task does not, and it has twice put a key
   that the table of a space in use lacks.
   */
  lemma CommitOverrunsIff(trace: seq<Sys>, i: nat, r: nat)
    requires Run(trace) && i < |trace| && r < |trace[i].ranks| && Shape(trace[i])
    ensures Overruns(trace[i].comms, CommitMsg(trace[i].ranks[r].recs), trace[i].noDup) <==>
            && !trace[i].noDup && trace[i].ranks[r].noDup
            && exists name :: RepeatsInto(trace[i].comms, trace[i].ranks[r], name)
  {
    RunInv(trace, i);
    InvRank(trace[i], r);
    RunModes(trace, i);
    if !trace[i].ranks[r].noDup { CommitsAdmissible(trace, i, r); }
    hide Run, Inv;
    assert ModeRight(trace[i].ranks[r]);
    OverrunsNow(trace[i], trace[i].ranks[r]);
  }

  lemma OverrunsNow(s: Sys, k: Rank)
    requires Shape(s) && FirstOnly(k.recs) && ModeRight(k)
    requires !k.noDup ==> forall j | 0 <= j < |CommitMsg(k.recs)| :: DistinctKeys(CommitMsg(k.recs)[j].pairs)
    ensures Overruns(s.comms, CommitMsg(k.recs), s.noDup) <==>
            !s.noDup && k.noDup && exists name :: RepeatsInto(s.comms, k, name)
  {
    hide FindKvs, Overruns, CommitMsg, FindRec, PutsTo, RepeatsNewKey, DistinctKeys, NonGlobals;
    var msg := CommitMsg(k.recs);
    if s.noDup {
      NoDupNeverOverruns(s.comms, msg);
    } else {
      CommitNames(k.recs);
      OverrunsIff(s.comms, msg, false);
      if j :| 0 <= j < |msg| && ListOverruns(s.comms, msg[j], false) {
        if !k.noDup {
          DistinctNoRepeat(s.comms[FindKvs(s.comms, msg[j].name)].pairs, msg[j].pairs);
          assert false;
        }
        var x := ListRecord(k.recs, msg[j]);
        assert OwnAre(k.recs[x].entries, PutsTo(k.puts, k.recs[x].name));
        assert RepeatsInto(s.comms, k, k.recs[x].name);
      }
      if k.noDup {
        if name :| RepeatsInto(s.comms, k, name) { RepeatIsSent(s.comms, k, name); }
      }
    }
  }

  lemma ListRecord(recs: seq<Rec>, c: Comm) returns (i: nat)
    requires FirstOnly(recs) && c in CommitMsg(recs)
    ensures i < |recs| && i == FindRec(recs, c.name) && recs[i].name == c.name && !recs[i].defunct
    ensures c.pairs == PairsOf(NonGlobals(recs[i].entries))
  {
    CommitLists(recs, c);
    i :| 0 <= i < |recs| && !recs[i].defunct && NonGlobals(recs[i].entries) != []
         && c == Comm(recs[i].name, PairsOf(NonGlobals(recs[i].entries)));
    assert recs[i].entries != [];
  }

  lemma RepeatIsSent(ks: seq<Kvs>, k: Rank, name: string)
    requires k.noDup && ModeRight(k) && RepeatsInto(ks, k, name)
    ensures exists j | 0 <= j < |CommitMsg(k.recs)| :: ListOverruns(ks, CommitMsg(k.recs)[j], false)
  {
    hide FindKvs, FindRec, PutsTo, CommitMsg, NonGlobals;
    var x := FindRec(k.recs, name);
    assert OwnAre(k.recs[x].entries, PutsTo(k.puts, k.recs[x].name));
    var c := Comm(name, PutsTo(k.puts, name));
    assert c.pairs != [];
    CommitLists(k.recs, c);
    var j :| 0 <= j < |CommitMsg(k.recs)| && CommitMsg(k.recs)[j] == c;
  }
}
