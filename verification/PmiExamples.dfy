/**
 Two runs of the PMI-1 system in which the code does not do what one would like:
 a committed value that is never found, and a commit that makes the server write
 beyond a flag table.
 */
module PmiExamples {
  import opened PmiClient
  import opened PmiServer
  import opened PmiBarrier
  import opened PmiFacts
  import opened PmiSystem
  import opened PmiSteps
  import opened PmiVisibility
  import opened PmiDistinct

  function Initial(modes: seq<bool>, serverNoDup: bool): Sys {
    Sys(seq(|modes|, i requires 0 <= i < |modes| => NewRank(modes[i])), [], serverNoDup, false, NoBarrier, [], map[], {})
  }

  /** A run goes on with any enabled step. */
  lemma Extend(trace: seq<Sys>, a: Action) returns (t: seq<Sys>)
    requires Run(trace) && Shape(trace[|trace| - 1]) && Enabled(trace[|trace| - 1], a)
    ensures Run(t) && t == trace + [Step(trace[|trace| - 1], a)] && Shape(t[|t| - 1])
  {
    hide Enabled, Step, Start, Inv;
    t := trace + [Step(trace[|trace| - 1], a)];
    forall i | 0 < i < |t| ensures Next(t[i - 1], t[i]) {
      if i < |trace| { assert t[i - 1] == trace[i - 1] && t[i] == trace[i]; }
    }
    RunInv(t, |t| - 1);
    InvShaped(t[|t| - 1]);
  }

  lemma InvShaped(s: Sys)
    requires Inv(s)
    ensures Shape(s)
  {
  }

  /** The record after one put, and what committing it does. */
  lemma OneEntry(key: string, value: string, noDup: bool) returns (recs: seq<Rec>)
    ensures recs == [Rec("s", false, [Entry(key, value, Local)])]
    ensures recs == PutRec([Rec("s", false, [])], "s", key, value, true, noDup)
    ensures CommitMsg(recs) == [Comm("s", [Pair(key, value)])] && Committed(recs, recs)
  {
    var es := [Entry(key, value, Local)];
    recs := [Rec("s", false, es)];
    assert recs[1..] == [] && es[1..] == [] && NonGlobals(es) == es && PairsOf(es) == [Pair(key, value)];
    assert Partitioned(es, es);
    assert FindRec([Rec("s", false, [])], "s") == 0 && FindKey([], key) == 0;
    assert PutEntry([], key, value, true, noDup) == es;
  }

  /** A first list becomes the space. */
  lemma OneList(c: Comm, noDup: bool)
    ensures !Overruns([], [c], noDup) && PutSet([], [c], noDup) == [Kvs(c.name, c.pairs, Unset)]
  {
    assert [c][1..] == [] && FindKvs([], c.name) == 0;
    var r := PutComm([], c, noDup);
    assert r == [Kvs(c.name, c.pairs, Unset)];
    assert PutSet([], [c], noDup) == PutSet(r, [], noDup);
    assert !Overruns(r, [], noDup);
  }

  ghost function PutBefore(modes: seq<bool>, serverNoDup: bool, key: string, value: string): Sys
    requires |modes| > 0
  {
    var s := Initial(modes, serverNoDup);
    s.(ranks := s.ranks[0 := Rank([Rec("s", false, [Entry(key, value, Local)])], modes[0], 0, 0,
                                  [Fact("s", key, value)], map["s" := 0])],
       book := map[("s", key) := value])
  }

  /** One task makes a space and puts one pair into it. */
  lemma FirstPut(modes: seq<bool>, serverNoDup: bool, key: string, value: string) returns (trace: seq<Sys>)
    requires |modes| > 0
    ensures Run(trace) && |trace| > 0 && trace[|trace| - 1] == PutBefore(modes, serverNoDup, key, value)
  {
    hide Run, PutRec;
    trace := FirstCreate(modes, serverNoDup);
    var k := trace[|trace| - 1].ranks[0];
    trace := Extend(trace, Put(0, "s", key, value));
    var recs := OneEntry(key, value, modes[0]);
    assert [] + [Fact("s", key, value)] == [Fact("s", key, value)];
    assert trace[|trace| - 1].ranks == PutBefore(modes, serverNoDup, key, value).ranks;
  }

  lemma FirstCreate(modes: seq<bool>, serverNoDup: bool) returns (trace: seq<Sys>)
    requires |modes| > 0
    ensures Run(trace) && |trace| > 0
    ensures var s, k := Initial(modes, serverNoDup), Rank([Rec("s", false, [])], modes[0], 0, 0, [], map["s" := 0]);
            trace[|trace| - 1] == s.(ranks := s.ranks[0 := k])
  {
    trace := [Initial(modes, serverNoDup)];
    trace := Extend(trace, Create(0, "s"));
    assert [] + [Rec("s", false, [])] == [Rec("s", false, [])];
  }

  /** And commits, in either mode of the server. */
  lemma FirstCommit(modes: seq<bool>, serverNoDup: bool, key: string, value: string) returns (trace: seq<Sys>)
    requires |modes| > 0
    ensures Run(trace) && Shape(trace[|trace| - 1])
    ensures var s := trace[|trace| - 1];
            && s.ranks == PutBefore(modes, serverNoDup, key, value).ranks
            && s.comms == [Kvs("s", [Pair(key, value)], Unset)] && s.noDup == serverNoDup && s.updated
            && s.barrier == NoBarrier && s.log == [] && s.book == map[("s", key) := value]
            && (Fact("s", key, value), 0) in s.committed
  {
    hide Run, Overruns, PutSet, CommitMsg, Committed;
    trace := FirstPut(modes, serverNoDup, key, value);
    var s := trace[|trace| - 1];
    var recs := OneEntry(key, value, modes[0]);
    OneList(Comm("s", [Pair(key, value)]), serverNoDup);
    assert Fact("s", key, value) in Sendable(s.ranks[0]);
    trace := Extend(trace, Commit(0, recs));
    assert trace[|trace| - 1].ranks == s.ranks;
  }

  /**
   A task that makes its record of the space only after the barrier never finds
   the pair that another task committed before it, whatever the length it allows.
   */
  lemma LateRecordMisses() returns (trace: seq<Sys>, f: Fact)
    ensures Run(trace)
    ensures var s := trace[|trace| - 1];
            && |s.ranks| == 2 && (f, 0) in s.committed && s.ranks[1].returned == 1 && InUse(s.ranks[1].recs, f.name)
            && forall length :: Get(s.ranks[1].recs, f.name, f.key, length) != Found(f.value)
  {
    f := Fact("s", "k", "v");
    trace := FirstCommit([true, true], true, "k", "v");
    trace := BothEnter(trace);
    var s := trace[|trace| - 1];
    trace := Extend(trace, Return(1));
    ReceiveNothing(s.log[0], true);
    trace := Extend(trace, Create(1, "s"));
    var t := trace[|trace| - 1];
    RunInv(trace, |trace| - 1);
    forall length ensures Get(t.ranks[1].recs, f.name, f.key, length) != Found(f.value) {
      GetNow(t, 1, f, length);
    }
  }

  lemma BothEnter(trace: seq<Sys>) returns (t: seq<Sys>)
    requires Run(trace) && Shape(trace[|trace| - 1])
    requires var s := trace[|trace| - 1];
             && |s.ranks| == 2 && s.barrier == NoBarrier && s.log == []
             && s.ranks[0].entered == s.ranks[0].returned == s.ranks[1].entered == s.ranks[1].returned == 0
    ensures Run(t) && Shape(t[|t| - 1])
    ensures var s, u := trace[|trace| - 1], t[|t| - 1];
            && u.ranks == [s.ranks[0].(entered := 1), s.ranks[1].(entered := 1)]
            && |u.log| == 1 && u.committed == s.committed
  {
    var s := trace[|trace| - 1];
    t := Extend(trace, Enter(0, 1, "a"));
    assert t[|t| - 1].barrier == Barrier(2, 1, [Slot(1, "a"), Slot(0, "")]);
    t := Extend(t, Enter(1, 1, "b"));
  }

  /** Without records a barrier changes nothing. */
  lemma ReceiveNothing(snapshot: seq<Comm>, noDup: bool)
    ensures Receive([], snapshot, noDup) == []
  {
    assert Disable([]) == [];
    ReceiveAllNothing(snapshot, noDup);
  }

  lemma {:induction false} ReceiveAllNothing(snapshot: seq<Comm>, noDup: bool)
    ensures ReceiveAll([], snapshot, noDup) == []
    decreases |snapshot|
  {
    if snapshot != [] {
      ReceivePairsNothing(snapshot[0].name, snapshot[0].pairs, noDup);
      ReceiveAllNothing(snapshot[1..], noDup);
    }
  }

  lemma {:induction false} ReceivePairsNothing(name: string, ps: seq<Pair>, noDup: bool)
    ensures ReceivePairs([], name, ps, noDup) == []
    decreases |ps|
  {
    if ps != [] { ReceivePairsNothing(name, ps[1..], noDup); }
  }

  /**
   With a server that allows duplicates and a task that does not, putting a new
   key twice after a barrier makes the next commit overrun.
   */
  lemma MixedModesOverrun() returns (trace: seq<Sys>)
    ensures Run(trace) && Shape(trace[|trace| - 1])
    ensures var s := trace[|trace| - 1];
            |s.ranks| == 1 && Free(s, 0) && Overruns(s.comms, CommitMsg(s.ranks[0].recs), s.noDup)
  {
    hide Run, Enabled, Step, Overruns, CommitMsg;
    trace := FirstCommit([true], false, "a", "1");
    trace := EnterAndReturn(trace);
    trace := PutTwice(trace);
    RepeatsThere(trace[|trace| - 1]);
    CommitOverrunsIff(trace, |trace| - 1, 0);
  }

  /** The record of the only task after its barrier, with nothing or some pairs k=v put since. */
  ghost predicate AfterBarrier(s: Sys, puts: seq<Fact>) {
    && |s.ranks| == 1 && s.ranks[0].noDup && s.ranks[0].entered == s.ranks[0].returned && s.ranks[0].puts == puts
    && InUse(s.ranks[0].recs, "s") && !s.noDup && s.comms == [Kvs("s", [Pair("a", "1")], Flags([true]))]
    && (("s", "k") in s.book ==> s.book[("s", "k")] == "v")
  }

  lemma PutKV(trace: seq<Sys>, puts: seq<Fact>) returns (t: seq<Sys>)
    requires Run(trace) && |trace| > 0 && Shape(trace[|trace| - 1]) && AfterBarrier(trace[|trace| - 1], puts)
    ensures Run(t) && |t| > 0 && Shape(t[|t| - 1]) && AfterBarrier(t[|t| - 1], puts + [Fact("s", "k", "v")])
  {
    hide Run, PutEntry, FindRec;
    var k := trace[|trace| - 1].ranks[0];
    t := Extend(trace, Put(0, "s", "k", "v"));
    PutKeepsNames(k.recs, "s", "k", "v", true, true);
    SameNamesFind(k.recs, PutRec(k.recs, "s", "k", "v", true, true), "s");
  }

  lemma PutTwice(trace: seq<Sys>) returns (t: seq<Sys>)
    requires Run(trace) && |trace| > 0 && Shape(trace[|trace| - 1])
    requires AfterBarrier(trace[|trace| - 1], [Fact("s", "a", "1")])
    ensures Run(t) && |t| > 0 && Shape(t[|t| - 1])
    ensures AfterBarrier(t[|t| - 1], [Fact("s", "a", "1"), Fact("s", "k", "v"), Fact("s", "k", "v")])
  {
    hide Run, Shape, AfterBarrier;
    var a, k := Fact("s", "a", "1"), Fact("s", "k", "v");
    t := PutKV(trace, [a]);
    assert [a] + [k] == [a, k];
    t := PutKV(t, [a, k]);
    assert [a, k] + [k] == [a, k, k];
  }

  lemma RepeatsThere(s: Sys)
    requires AfterBarrier(s, [Fact("s", "a", "1"), Fact("s", "k", "v"), Fact("s", "k", "v")])
    ensures RepeatsInto(s.comms, s.ranks[0], "s")
  {
    hide FindRec, PutsTo;
    PutsThree(s.ranks[0].puts);
    var ps := PutsTo(s.ranks[0].puts, "s");
    assert ps[1].key == ps[2].key && !HasKey(s.comms[0].pairs, ps[1].key);
    assert FindKvs(s.comms, "s") == 0;
  }

  lemma PutsThree(puts: seq<Fact>)
    requires puts == [Fact("s", "a", "1"), Fact("s", "k", "v"), Fact("s", "k", "v")]
    ensures PutsTo(puts, "s") == [Pair("a", "1"), Pair("k", "v"), Pair("k", "v")]
  {
    var a, k := Fact("s", "a", "1"), Fact("s", "k", "v");
    PutsToSnoc([], a, "s");
    PutsToSnoc([a], k, "s");
    PutsToSnoc([a, k], k, "s");
    assert [] + [a] == [a] && [a] + [k] == [a, k] && [a, k] + [k] == puts;
  }

  /** The only task goes through a barrier after its first commit. */
  lemma EnterAndReturn(trace: seq<Sys>) returns (t: seq<Sys>)
    requires Run(trace) && Shape(trace[|trace| - 1])
    requires var s := trace[|trace| - 1];
             && s.ranks == [Rank([Rec("s", false, [Entry("a", "1", Local)])], true, 0, 0, [Fact("s", "a", "1")], map["s" := 0])]
             && s.comms == [Kvs("s", [Pair("a", "1")], Unset)] && s.updated && s.barrier == NoBarrier && s.log == []
    ensures Run(t) && Shape(t[|t| - 1])
    ensures var s, u := trace[|trace| - 1], t[|t| - 1];
            && u.ranks == [Rank([Rec("s", false, [Entry("a", "1", Disabled), Entry("a", "1", Global)])], true, 1, 1,
                                [Fact("s", "a", "1")], map["s" := 0])]
            && u.comms == [Kvs("s", [Pair("a", "1")], Flags([true]))] && u.noDup == s.noDup && u.book == s.book
    ensures !trace[|trace| - 1].noDup && trace[|trace| - 1].book == map[("s", "a") := "1"] ==>
              AfterBarrier(t[|t| - 1], [Fact("s", "a", "1")])
  {
    var s := trace[|trace| - 1];
    t := Extend(trace, Enter(0, 1, "a"));
    var u := t[|t| - 1];
    OneSnapshot(s.comms[0]);
    OneReceived();
    t := Extend(t, Return(0));
  }

  lemma OneSnapshot(k: Kvs)
    requires k == Kvs("s", [Pair("a", "1")], Unset)
    ensures Snapshot([k]) == [Comm("s", [Pair("a", "1")])] && MarkSent([k]) == [Kvs("s", [Pair("a", "1")], Flags([true]))]
  {
    var ps := [Pair("a", "1")];
    assert Trues(1) == [true];
    assert ps[1..] == [] && Unsent(ps, SentOf(k)) == ps;
  }

  lemma OneReceived()
    ensures Receive([Rec("s", false, [Entry("a", "1", Local)])], [Comm("s", [Pair("a", "1")])], true)
         == [Rec("s", false, [Entry("a", "1", Disabled), Entry("a", "1", Global)])]
  {
    var es, c := [Entry("a", "1", Local)], Comm("s", [Pair("a", "1")]);
    var d := [Rec("s", false, [Entry("a", "1", Disabled)])];
    assert DisabledEntries(es) == [Entry("a", "1", Disabled)];
    assert Disable([Rec("s", false, es)]) == d;
    assert FindRec(d, "s") == 0 && [c][1..] == [] && c.pairs[1..] == [];
    var r := PutRec(d, "s", "a", "1", false, true);
    assert ReceivePairs(d, "s", c.pairs, true) == ReceivePairs(r, "s", [], true) == r;
    assert ReceiveAll(d, [c], true) == ReceiveAll(r, [], true) == r;
    assert r == [Rec("s", false, [Entry("a", "1", Disabled)] + [Entry("a", "1", Global)])];
    assert [Entry("a", "1", Disabled)] + [Entry("a", "1", Global)] == [Entry("a", "1", Disabled), Entry("a", "1", Global)];
  }
}
