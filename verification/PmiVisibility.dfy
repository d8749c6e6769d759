/**
 What every run of the PMI-1 system guarantees: barriers synchronise, each
 snapshot carries exactly what was committed since the one before, and a get
 returns a value if and only if the task put it itself or some task committed it
 before a barrier from which this task returned with a record of the space.
 */
module PmiVisibility {
  import opened PmiClient
  import opened PmiServer
  import opened PmiBarrier
  import opened PmiFacts
  import opened PmiSystem
  import opened PmiSteps

  lemma NextInv(s: Sys, t: Sys)
    requires Inv(s) && Next(s, t)
    ensures Inv(t)
  {
    hide Inv, Enabled, Step;
    var a: Action :| Enabled(s, a) && t == Step(s, a);
    StepInv(s, a);
  }

  lemma {:induction false} RunInv(trace: seq<Sys>, i: nat)
    requires Run(trace) && i < |trace|
    ensures Inv(trace[i])
  {
    hide Inv, Next, Start;
    if i == 0 {
      StartInv(trace[0]);
    } else {
      RunInv(trace, i - 1);
      NextInv(trace[i - 1], trace[i]);
    }
  }

  /** No task returns from a barrier before every task has entered it. */
  lemma BarrierSynchronises(trace: seq<Sys>, i: nat, r: nat, q: nat)
    requires Run(trace) && i < |trace| && r < |trace[i].ranks| && q < |trace[i].ranks|
    ensures trace[i].ranks[r].returned <= trace[i].ranks[q].entered
  {
    hide Run, TableRight, AllKnown, ServerRight, RanksRight;
    RunInv(trace, i);
  }

  /** Every snapshot carries exactly the facts committed between the barrier before and its own. */
  lemma SnapshotIff(trace: seq<Sys>, i: nat, e: nat, f: Fact)
    requires Run(trace) && i < |trace| && e < |trace[i].log|
    ensures Carries(trace[i].log[e], f) <==> (f, e) in trace[i].committed
  {
    hide Run, TableRight, AllKnown, RanksRight, Carries;
    RunInv(trace, i);
  }

  // ---- What a get returns --------------------------------------------------

  /** Committed before a barrier after number a and up to the b-th. */
  ghost predicate CommittedBetween(committed: set<(Fact, nat)>, a: nat, b: nat, f: Fact) {
    exists e: nat :: a <= e < b && (f, e) in committed
  }

  lemma DeliveredIff(comms: seq<Kvs>, updated: bool, log: seq<seq<Comm>>, committed: set<(Fact, nat)>,
                     a: nat, b: nat, f: Fact)
    requires ServerRight(comms, updated, log, committed) && b <= |log|
    ensures Delivered(log, a, b, f) <==> CommittedBetween(committed, a, b, f)
  {
    hide Carries, HasFact, HasUnsent;
    if CommittedBetween(committed, a, b, f) {
      var e: nat :| a <= e < b && (f, e) in committed;
      assert Carries(log[e], f);
    }
  }

  /** The law of a get at any state, by when the task made its record. */
  lemma GetNow(s: Sys, r: nat, f: Fact, length: int)
    requires Inv(s) && r < |s.ranks|
    ensures var k := s.ranks[r];
            Get(k.recs, f.name, f.key, length) == Found(f.value) <==>
              && InUse(k.recs, f.name) && |f.value| < length
              && (f in k.puts
                  || (f.name in k.since && CommittedBetween(s.committed, k.since[f.name], k.returned, f)))
  {
    hide ServerRight, Get, FirstOnly, KnownRecs, RecHolds, RecHoldsOwn, FindRec, Delivered, CommittedBetween, TableRight;
    var k := s.ranks[r];
    InvRank(s, r);
    GetIff(s.book, k.recs, f, length);
    if f.name in k.since {
      DeliveredIff(s.comms, s.updated, s.log, s.committed, k.since[f.name], k.returned, f);
    }
  }

  /** Whatever a get returns, the task put it itself or some task committed it before a barrier this task returned from. */
  lemma NothingEarly(trace: seq<Sys>, i: nat, r: nat, name: string, key: string, length: int)
    requires Run(trace) && i < |trace| && r < |trace[i].ranks|
    requires Get(trace[i].ranks[r].recs, name, key, length).Found?
    ensures var f := Fact(name, key, Get(trace[i].ranks[r].recs, name, key, length).value);
            f in trace[i].ranks[r].puts || CommittedBetween(trace[i].committed, 0, trace[i].ranks[r].returned, f)
  {
    RunInv(trace, i);
    hide Run, Inv, Get;
    var k := trace[i].ranks[r];
    var f := Fact(name, key, Get(k.recs, name, key, length).value);
    GetNow(trace[i], r, f, length);
  }

  // ---- When the record was made --------------------------------------------

  /** One step keeps the tasks, and what each remembers of its records. */
  lemma StepKeepsSince(s: Sys, t: Sys, r: nat)
    requires Next(s, t) && r < |s.ranks|
    ensures |t.ranks| == |s.ranks|
    ensures forall n | n in s.ranks[r].since :: n in t.ranks[r].since && t.ranks[r].since[n] == s.ranks[r].since[n]
    ensures forall n | n in t.ranks[r].since && n !in s.ranks[r].since ::
              t.ranks[r].since[n] == t.ranks[r].returned
  {
    hide Enabled, Step, PutRec, Receive;
    var a: Action :| Enabled(s, a) && t == Step(s, a);
    StepRanks(s, a);
  }

  lemma {:induction false} SinceKept(trace: seq<Sys>, j: nat, i: nat, r: nat, name: string)
    requires Run(trace) && j <= i < |trace| && r < |trace[j].ranks|
    ensures |trace[i].ranks| == |trace[j].ranks|
    ensures name in trace[j].ranks[r].since ==>
              name in trace[i].ranks[r].since && trace[i].ranks[r].since[name] == trace[j].ranks[r].since[name]
    decreases i - j
  {
    hide Next, Start;
    if j < i {
      SinceKept(trace, j, i - 1, r, name);
      StepKeepsSince(trace[i - 1], trace[i], r);
    }
  }

  /** At state j of the run task r has a record of the name and has returned from at most e barriers. */
  ghost predicate HadRecord(trace: seq<Sys>, j: nat, r: nat, name: string, e: nat) {
    && j < |trace| && r < |trace[j].ranks|
    && HasRec(trace[j].ranks[r].recs, name) && trace[j].ranks[r].returned <= e
  }

  /** The moment a record was made, found in the run. */
  lemma {:induction false} SinceMoment(trace: seq<Sys>, i: nat, r: nat, name: string) returns (j: nat)
    requires Run(trace) && i < |trace| && r < |trace[i].ranks| && name in trace[i].ranks[r].since
    ensures j <= i && HadRecord(trace, j, r, name, trace[i].ranks[r].since[name])
  {
    RunInv(trace, i);
    InvRank(trace[i], r);
    hide Next, Start, Inv, FindRec;
    if i == 0 {
      StartNoRecords(trace[0], r);
      assert false;
    }
    RanksKept(trace, i - 1, i);
    StepKeepsSince(trace[i - 1], trace[i], r);
    if name in trace[i - 1].ranks[r].since {
      j := SinceMoment(trace, i - 1, r, name);
    } else {
      j := i;
    }
  }

  lemma StartNoRecords(s: Sys, r: nat)
    requires Start(s) && r < |s.ranks|
    ensures s.ranks[r].since == map[]
  {
  }

  lemma RanksKept(trace: seq<Sys>, j: nat, i: nat)
    requires Run(trace) && j <= i < |trace|
    ensures |trace[i].ranks| == |trace[j].ranks|
  {
    RunInv(trace, j);
    SinceKept(trace, j, i, 0, "");
  }

  /** A record present when a task had returned from at most e barriers was made no later. */
  lemma SinceBefore(trace: seq<Sys>, j: nat, i: nat, r: nat, name: string, e: nat)
    requires Run(trace) && j <= i < |trace| && HadRecord(trace, j, r, name, e)
    ensures r < |trace[i].ranks| && name in trace[i].ranks[r].since && trace[i].ranks[r].since[name] <= e
  {
    RunInv(trace, j);
    InvRank(trace[j], r);
    hide Run, Inv;
    SinceKept(trace, j, i, r, name);
  }

  // ---- The law in terms of the run -----------------------------------------

  /**
   End-to-end visibility.  A fact committed by a task that had entered e barriers
   is what a get returns at every task that has since returned from barrier e and
   that had a record of the space before that, until it destroys it.
   */
  lemma Visible(trace: seq<Sys>, j: nat, i: nat, r: nat, f: Fact, e: nat, length: int)
    requires Run(trace) && j <= i < |trace| && HadRecord(trace, j, r, f.name, e)
    requires r < |trace[i].ranks| && e < trace[i].ranks[r].returned && (f, e) in trace[i].committed
    requires InUse(trace[i].ranks[r].recs, f.name) && |f.value| < length
    ensures Get(trace[i].ranks[r].recs, f.name, f.key, length) == Found(f.value)
  {
    RunInv(trace, i);
    hide Run, Inv, Get, InUse, HadRecord;
    SinceBefore(trace, j, i, r, f.name, e);
    GetNow(trace[i], r, f, length);
  }

  /** Some task committed the fact before a barrier from which task r has returned by now with a record of the space. */
  ghost predicate Reached(trace: seq<Sys>, i: nat, r: nat, f: Fact)
    requires i < |trace| && r < |trace[i].ranks|
  {
    exists j: nat, e: nat ::
      j <= i && HadRecord(trace, j, r, f.name, e) && e < trace[i].ranks[r].returned && (f, e) in trace[i].committed
  }

  /**
   The exact law, for every run, task, key and value: a get returns the value if
   and only if the task has the space in use, the value fits, and the task put it
   itself or it was committed before a barrier from which the task returned with
   a record of the space.
   */
  lemma VisibleIff(trace: seq<Sys>, i: nat, r: nat, f: Fact, length: int)
    requires Run(trace) && i < |trace| && r < |trace[i].ranks|
    ensures Get(trace[i].ranks[r].recs, f.name, f.key, length) == Found(f.value) <==>
            && InUse(trace[i].ranks[r].recs, f.name) && |f.value| < length
            && (f in trace[i].ranks[r].puts || Reached(trace, i, r, f))
  {
    RunInv(trace, i);
    hide Run, Inv, Get, InUse, Reached, CommittedBetween;
    GetNow(trace[i], r, f, length);
    ReachedIff(trace, i, r, f);
  }

  lemma ReachedIff(trace: seq<Sys>, i: nat, r: nat, f: Fact)
    requires Run(trace) && i < |trace| && r < |trace[i].ranks|
    ensures var k := trace[i].ranks[r];
            Reached(trace, i, r, f) <==>
            f.name in k.since && CommittedBetween(trace[i].committed, k.since[f.name], k.returned, f)
  {
    hide Run, HadRecord;
    var k := trace[i].ranks[r];
    if f.name in k.since && CommittedBetween(trace[i].committed, k.since[f.name], k.returned, f) {
      var e: nat :| k.since[f.name] <= e < k.returned && (f, e) in trace[i].committed;
      var j := SinceMoment(trace, i, r, f.name);
      HadLater(trace, j, r, f.name, k.since[f.name], e);
    }
    if Reached(trace, i, r, f) {
      var j: nat, e: nat :|
        j <= i && HadRecord(trace, j, r, f.name, e) && e < trace[i].ranks[r].returned && (f, e) in trace[i].committed;
      SinceBefore(trace, j, i, r, f.name, e);
    }
  }

  lemma HadLater(trace: seq<Sys>, j: nat, r: nat, name: string, d: nat, e: nat)
    requires HadRecord(trace, j, r, name, d) && d <= e
    ensures HadRecord(trace, j, r, name, e)
  {
  }

  /** Made before the first barrier, a record misses nothing: the law pmi.h promises. */
  lemma VisibleFromStart(trace: seq<Sys>, j: nat, i: nat, r: nat, f: Fact, length: int)
    requires Run(trace) && j <= i < |trace| && HadRecord(trace, j, r, f.name, 0)
    requires r < |trace[i].ranks| && InUse(trace[i].ranks[r].recs, f.name) && |f.value| < length
    ensures Get(trace[i].ranks[r].recs, f.name, f.key, length) == Found(f.value) <==>
            f in trace[i].ranks[r].puts || CommittedBetween(trace[i].committed, 0, trace[i].ranks[r].returned, f)
  {
    RunInv(trace, i);
    hide Run, Inv, Get, InUse, HadRecord;
    SinceBefore(trace, j, i, r, f.name, 0);
    GetNow(trace[i], r, f, length);
  }

  /** In every run, rearranging the records for a commit changes the result of no get. */
  lemma CommitInvisible(trace: seq<Sys>, i: nat, r: nat, recs: seq<Rec>, name: string, key: string, length: int)
    requires Run(trace) && i < |trace| && r < |trace[i].ranks|
    requires Committed(trace[i].ranks[r].recs, recs)
    ensures Get(recs, name, key, length) == Get(trace[i].ranks[r].recs, name, key, length)
  {
    RunInv(trace, i);
    InvRank(trace[i], r);
    hide Run, Get, Committed, Inv;
    var k := trace[i].ranks[r];
    KnownConsistent(trace[i].book, k.recs);
    CommitKeepsGets(k.recs, recs, name, key, length);
  }

  lemma KnownConsistent(b: Book, recs: seq<Rec>)
    requires KnownRecs(b, recs)
    ensures forall i | 0 <= i < |recs| :: Consistent(recs[i].entries)
  {
    forall i | 0 <= i < |recs| ensures Consistent(recs[i].entries) {
      assert KnownEntries(b, recs[i].name, recs[i].entries);
      var es := recs[i].entries;
      forall j, k | 0 <= j < |es| && 0 <= k < |es| && es[j].key == es[k].key ensures es[j].value == es[k].value {
        assert Known(b, recs[i].name, es[j].key, es[j].value) && Known(b, recs[i].name, es[k].key, es[k].value);
      }
    }
  }
}
