/**
 Every step of the PMI-1 system keeps its invariant.
 */
module PmiSteps {
  import opened PmiClient
  import opened PmiServer
  import opened PmiBarrier
  import opened PmiFacts
  import opened PmiSystem

  // ---- One task at a time --------------------------------------------------

  lemma InvRank(s: Sys, r: nat)
    requires Inv(s) && r < |s.ranks|
    ensures RankRight(s.ranks[r], s.log) && KnownRecs(s.book, s.ranks[r].recs)
  {
  }

  /** A step of one task that changes neither its counters nor anything shared. */
  lemma LocalInv(s: Sys, r: nat, k: Rank)
    requires Inv(s) && r < |s.ranks|
    requires k.entered == s.ranks[r].entered && k.returned == s.ranks[r].returned
    requires KnownRecs(s.book, k.recs) && RankRight(k, s.log)
    ensures Inv(s.(ranks := s.ranks[r := k]))
  {
    hide Counted, KnownRecs, KnownKvs, KnownMsg, RankRight, ServerRight;
    var t := s.(ranks := s.ranks[r := k]);
    assert Waiting(t) == Waiting(s);
  }

  /** New records with the same names and facts are as right as the old. */
  lemma SameFactsRight(k: Rank, recs: seq<Rec>, log: seq<seq<Comm>>)
    requires RankRight(k, log) && SameNames(k.recs, recs) && FirstOnly(recs)
    requires forall f :: RecHolds(recs, f) <==> RecHolds(k.recs, f)
    requires forall f :: RecHoldsOwn(recs, f) <==> RecHoldsOwn(k.recs, f)
    ensures RankRight(k.(recs := recs), log)
  {
    hide FirstOnly, RecHolds, RecHoldsOwn, FindRec, Delivered;
    var q := k.(recs := recs);
    forall n ensures n in q.since <==> HasRec(recs, n) { SameNamesFind(k.recs, recs, n); }
    forall f ensures RecHolds(recs, f) <==> f in q.puts || Received(q, log, f) {
      assert Received(q, log, f) <==> Received(k, log, f);
    }
  }

  lemma FindAppended(recs: seq<Rec>, x: Rec, name: string)
    ensures HasRec(recs, name) ==> FindRec(recs + [x], name) == FindRec(recs, name)
    ensures !HasRec(recs, name) ==> FindRec(recs + [x], name) == if x.name == name then |recs| else |recs| + 1
  {
    hide FindRec;
    var r := recs + [x];
    var i, j := FindRec(recs, name), FindRec(r, name);
    if i < |recs| { assert r[i].name == name; }
    assert r[|recs|] == x && forall y | 0 <= y < |recs| :: r[y] == recs[y];
  }

  lemma AppendedFacts(recs: seq<Rec>, name: string, f: Fact)
    ensures var r := recs + [Rec(name, false, [])];
            (RecHolds(r, f) <==> RecHolds(recs, f)) && (RecHoldsOwn(r, f) <==> RecHoldsOwn(recs, f))
  {
    hide FindRec;
    FindAppended(recs, Rec(name, false, []), f.name);
  }

  lemma AppendedShape(b: Book, recs: seq<Rec>, name: string)
    requires KnownRecs(b, recs) && FirstOnly(recs)
    ensures var r := recs + [Rec(name, false, [])]; KnownRecs(b, r) && FirstOnly(r)
  {
    hide FindRec, Known;
    var r := recs + [Rec(name, false, [])];
    forall i | 0 <= i < |r|
      ensures KnownEntries(b, r[i].name, r[i].entries)
      ensures r[i].entries != [] ==> FindRec(r, r[i].name) == i
    {
      if i < |recs| {
        assert r[i] == recs[i] && KnownEntries(b, recs[i].name, recs[i].entries);
        FindAppended(recs, Rec(name, false, []), r[i].name);
      }
    }
  }

  lemma CreatedRight(k: Rank, name: string, log: seq<seq<Comm>>, b: Book)
    requires RankRight(k, log) && KnownRecs(b, k.recs)
    ensures RankRight(Created(k, name), log) && KnownRecs(b, Created(k, name).recs)
  {
    hide FirstOnly, KnownRecs, RecHolds, RecHoldsOwn, FindRec, Carries;
    var q := Created(k, name);
    AppendedShape(b, k.recs, name);
    forall n ensures n in q.since <==> HasRec(q.recs, n) { FindAppended(k.recs, Rec(name, false, []), n); }
    forall f
      ensures RecHoldsOwn(q.recs, f) <==> f in q.puts
      ensures RecHolds(q.recs, f) <==> f in q.puts || Received(q, log, f)
    {
      AppendedFacts(k.recs, name, f);
      assert Received(q, log, f) <==> Received(k, log, f);
    }
  }

  lemma CreateInv(s: Sys, r: nat, name: string)
    requires Inv(s) && Enabled(s, Create(r, name))
    ensures Inv(Step(s, Create(r, name)))
  {
    hide Inv, RankRight, KnownRecs;
    InvRank(s, r);
    CreatedRight(s.ranks[r], name, s.log, s.book);
    LocalInv(s, r, Created(s.ranks[r], name));
  }

  lemma DestroyedFacts(recs: seq<Rec>, name: string, f: Fact)
    ensures var r := MarkDefunct(recs, name);
            (RecHolds(r, f) <==> RecHolds(recs, f)) && (RecHoldsOwn(r, f) <==> RecHoldsOwn(recs, f))
  {
    hide FindRec, Holds, HoldsOwn;
    SameNamesFind(recs, MarkDefunct(recs, name), f.name);
  }

  lemma DestroyInv(s: Sys, r: nat, name: string)
    requires Inv(s) && Enabled(s, Destroy(r, name))
    ensures Inv(Step(s, Destroy(r, name)))
  {
    hide Inv, RankRight, RecHolds, RecHoldsOwn, FindRec, KnownEntries;
    var k := s.ranks[r];
    var recs := MarkDefunct(k.recs, name);
    InvRank(s, r);
    RightFirst(k, s.log);
    SameNamesFirst(k.recs, recs);
    forall f { DestroyedFacts(k.recs, name, f); }
    SameFactsRight(k, recs, s.log);
    LocalInv(s, r, k.(recs := recs));
  }

  lemma RightFirst(k: Rank, log: seq<seq<Comm>>)
    requires RankRight(k, log)
    ensures FirstOnly(k.recs)
  {
  }

  // ---- Put -----------------------------------------------------------------

  ghost predicate Extends(b: Book, c: Book) {
    forall n, k, v :: Known(b, n, k, v) ==> Known(c, n, k, v)
  }

  lemma GrowMsg(b: Book, c: Book, msg: seq<Comm>)
    requires Extends(b, c) && KnownMsg(b, msg)
    ensures KnownMsg(c, msg)
  {
    forall i | 0 <= i < |msg| ensures KnownPairs(c, msg[i].name, msg[i].pairs) {
      assert KnownPairs(b, msg[i].name, msg[i].pairs);
    }
  }

  lemma GrowKvs(b: Book, c: Book, ks: seq<Kvs>)
    requires Extends(b, c) && KnownKvs(b, ks)
    ensures KnownKvs(c, ks)
  {
    forall i | 0 <= i < |ks| ensures KnownPairs(c, ks[i].name, ks[i].pairs) {
      assert KnownPairs(b, ks[i].name, ks[i].pairs);
    }
  }

  lemma GrowRecs(b: Book, c: Book, recs: seq<Rec>)
    requires Extends(b, c) && KnownRecs(b, recs)
    ensures KnownRecs(c, recs)
  {
    forall i | 0 <= i < |recs| ensures KnownEntries(c, recs[i].name, recs[i].entries) {
      assert KnownEntries(b, recs[i].name, recs[i].entries);
    }
  }

  lemma BookGrows(s: Sys, key: (string, string), value: string)
    requires Inv(s) && (key in s.book ==> s.book[key] == value)
    ensures Inv(s.(book := s.book[key := value]))
  {
    var t := s.(book := s.book[key := value]);
    assert Extends(s.book, t.book);
    hide Extends, KnownRecs, KnownKvs, KnownMsg, Counted, RankRight, ServerRight;
    GrowKvs(s.book, t.book, s.comms);
    forall i | 0 <= i < |s.log| ensures KnownMsg(t.book, s.log[i]) { GrowMsg(s.book, t.book, s.log[i]); }
    forall r | 0 <= r < |s.ranks| ensures KnownRecs(t.book, s.ranks[r].recs) {
      GrowRecs(s.book, t.book, s.ranks[r].recs);
    }
    assert Waiting(t) == Waiting(s);
  }

  lemma PutRight(b: Book, log: seq<seq<Comm>>, k: Rank, name: string, key: string, value: string)
    requires RankRight(k, log) && KnownRecs(b, k.recs) && Known(b, name, key, value) && HasRec(k.recs, name)
    ensures var q := PutLocal(k, name, key, value); KnownRecs(b, q.recs) && RankRight(q, log)
  {
    hide PutRec, RecHolds, RecHoldsOwn, KnownRecs, FirstOnly, FindRec, Carries;
    PutRecShape(b, k.recs, name, key, value, true, k.noDup);
    var q := PutLocal(k, name, key, value);
    forall n ensures n in q.since <==> HasRec(q.recs, n) { SameNamesFind(k.recs, q.recs, n); }
    forall f
      ensures RecHoldsOwn(q.recs, f) <==> f in q.puts
      ensures RecHolds(q.recs, f) <==> f in q.puts || Received(q, log, f)
    {
      PutRecFacts(b, k.recs, name, key, value, true, k.noDup, f);
      assert Received(q, log, f) <==> Received(k, log, f);
    }
  }

  lemma PutInv(s: Sys, r: nat, name: string, key: string, value: string)
    requires Inv(s) && Enabled(s, Put(r, name, key, value))
    ensures Inv(Step(s, Put(r, name, key, value)))
  {
    if HasRec(s.ranks[r].recs, name) {
      hide Inv, RankRight, KnownRecs;
      BookGrows(s, (name, key), value);
      var t := s.(book := s.book[(name, key) := value]);
      InvRank(t, r);
      PutRight(t.book, t.log, t.ranks[r], name, key, value);
      LocalInv(t, r, PutLocal(t.ranks[r], name, key, value));
    } else {
      assert s.ranks[r := s.ranks[r]] == s.ranks;
    }
  }

  // ---- Commit --------------------------------------------------------------

  lemma CommitRight(b: Book, log: seq<seq<Comm>>, k: Rank, recs: seq<Rec>)
    requires RankRight(k, log) && KnownRecs(b, k.recs) && Committed(k.recs, recs)
    ensures KnownRecs(b, recs) && RankRight(k.(recs := recs), log)
  {
    hide RankRight, RecHolds, RecHoldsOwn, KnownRecs, Committed, FirstOnly;
    RightFirst(k, log);
    CommittedShape(b, k.recs, recs);
    forall f { CommittedFacts(k.recs, recs, f); }
    SameFactsRight(k, recs, log);
  }

  /** What a commit sends is what it records as committed. */
  lemma CommitSendable(k: Rank, log: seq<seq<Comm>>, f: Fact)
    requires RankRight(k, log)
    ensures Carries(CommitMsg(k.recs), f) <==> f in Sendable(k)
  {
    hide FirstOnly, Carries, CommitMsg, RecHolds;
    CommitSends(k.recs, f);
  }

  lemma ServerPut(b: Book, s: Sys, msg: seq<Comm>, now: set<Fact>)
    requires ServerRight(s.comms, s.updated, s.log, s.committed) && KnownKvs(b, s.comms) && KnownMsg(b, msg)
    requires forall f :: Carries(msg, f) <==> f in now
    ensures var comms := PutSet(s.comms, msg, s.noDup);
            && KnownKvs(b, comms)
            && ServerRight(comms, true, s.log, s.committed + set f | f in now :: (f, |s.log|))
  {
    hide PutSet, KnownKvs, HasFact, HasUnsent, Carries, KnownMsg;
    var comms, e := PutSet(s.comms, msg, s.noDup), |s.log|;
    var committed := s.committed + set f | f in now :: (f, e);
    PutSetFacts(b, s.comms, msg, s.noDup, Fact("", "", ""));
    forall f
      ensures HasFact(comms, f) <==> HasFact(s.comms, f) || f in now
      ensures HasUnsent(comms, f) <==> HasUnsent(s.comms, f) || f in now
    {
      PutSetFacts(b, s.comms, msg, s.noDup, f);
    }
    forall f | HasFact(comms, f) ensures exists e: nat :: (f, e) in committed {
      if f in now {
        assert (f, e) in committed;
      } else {
        var d: nat :| (f, d) in s.committed;
        assert (f, d) in committed;
      }
    }
  }

  lemma CommitInv(s: Sys, r: nat, recs: seq<Rec>)
    requires Inv(s) && Enabled(s, Commit(r, recs))
    ensures Inv(Step(s, Commit(r, recs)))
  {
    hide RankRight, KnownRecs, KnownKvs, KnownMsg, ServerRight, Counted, CommitMsg, PutSet, Committed, Sendable, Overruns;
    var k := s.ranks[r];
    InvRank(s, r);
    CommitRight(s.book, s.log, k, recs);
    CommitKnown(s.book, k.recs);
    forall f { CommitSendable(k, s.log, f); }
    assert k.entered == |s.log|;
    ServerPut(s.book, s, CommitMsg(k.recs), Sendable(k));
    var t := Step(s, Commit(r, recs));
    assert Waiting(t) == Waiting(s);
  }

  // ---- Entering a barrier --------------------------------------------------

  /** The table after an arrival: right again, or complete because everyone else was waiting. */
  lemma EnterTable(s: Sys, r: nat, req: Request)
    requires InStep(s) && TableRight(s) && Free(s, r) && req.port != 0 && req.size == |s.ranks| && req.task == r
    ensures var b := Arrive(s.barrier, req);
            var t := s.(ranks := s.ranks[r := s.ranks[r].(entered := s.ranks[r].entered + 1)], barrier := b.barrier);
            if b.fired then b.barrier == NoBarrier && forall x | 0 <= x < |s.ranks| :: t.ranks[x].entered == |s.log| + 1
            else TableRight(t)
  {
    assert |s.barrier.slots| == s.barrier.cnt;
    hide Arrive, Filled, Counted, Waiting, Tasks;
    ArriveEffect(s.barrier, req);
    var b := Arrive(s.barrier, req);
    var t := s.(ranks := s.ranks[r := s.ranks[r].(entered := s.ranks[r].entered + 1)], barrier := b.barrier);
    WaitingGrows(s, t, r);
    if b.fired { AllWaiting(t); }
  }

  lemma WaitingGrows(s: Sys, t: Sys, r: nat)
    requires InStep(s) && Free(s, r) && t.log == s.log
    requires t.ranks == s.ranks[r := s.ranks[r].(entered := s.ranks[r].entered + 1)]
    ensures Waiting(t) == Waiting(s) + {r}
  {
  }

  lemma AllWaiting(t: Sys)
    requires Waiting(t) == Tasks(|t.ranks|)
    ensures forall x | 0 <= x < |t.ranks| :: t.ranks[x].entered == |t.log| + 1
  {
    forall x | 0 <= x < |t.ranks| ensures t.ranks[x].entered == |t.log| + 1 { assert x in Tasks(|t.ranks|); }
  }

  lemma EnteredRight(k: Rank, entered: nat, log: seq<seq<Comm>>)
    requires RankRight(k, log)
    ensures RankRight(k.(entered := entered), log)
  {
    hide Delivered;
    var q := k.(entered := entered);
    forall f ensures Received(q, log, f) <==> Received(k, log, f) {
    }
  }

  /** A longer log delivers nothing more to a task that has not returned yet. */
  lemma LongerLogRight(k: Rank, log: seq<seq<Comm>>, s: seq<Comm>)
    requires RankRight(k, log)
    ensures RankRight(k, log + [s])
  {
    hide Carries, RecHolds, RecHoldsOwn, FirstOnly;
    forall f ensures Received(k, log + [s], f) <==> Received(k, log, f) {
      if f.name in k.since { DeliveredLonger(log, s, k.since[f.name], k.returned, f); }
    }
  }

  lemma DeliveredLonger(log: seq<seq<Comm>>, s: seq<Comm>, a: nat, b: nat, f: Fact)
    requires b <= |log|
    ensures Delivered(log + [s], a, b, f) <==> Delivered(log, a, b, f)
  {
    hide Carries;
    assert forall i | 0 <= i < |log| :: (log + [s])[i] == log[i];
  }

  lemma EnterInv(s: Sys, r: nat, port: nat, host: string)
    requires Inv(s) && Enabled(s, Enter(r, port, host))
    ensures Inv(Step(s, Enter(r, port, host)))
  {
    hide Counted, KnownRecs, KnownKvs, KnownMsg, ServerRight, Arrive, RankRight, TableRight;
    var req := Request(|s.ranks|, r, port, host);
    EnterTable(s, r, req);
    var b := Arrive(s.barrier, req);
    var k := s.ranks[r].(entered := s.ranks[r].entered + 1);
    var t := s.(ranks := s.ranks[r := k], barrier := b.barrier);
    InvRank(s, r);
    EnteredRight(s.ranks[r], k.entered, s.log);
    if b.fired {
      FireInv(s, t);
    } else {
      ArriveShape(s.barrier, req);
    }
  }

  lemma ArriveShape(b: Barrier, req: Request)
    requires |b.slots| == b.cnt
    ensures |Arrive(b, req).barrier.slots| == Arrive(b, req).barrier.cnt
  {
  }

  /** The last arrival: everyone has entered, and the snapshot joins the log. */
  lemma FireInv(s: Sys, t: Sys)
    requires Inv(s)
    requires |t.ranks| == |s.ranks| && t == s.(ranks := t.ranks, barrier := NoBarrier)
    requires forall x | 0 <= x < |s.ranks| ::
               t.ranks[x] == s.ranks[x].(entered := |s.log| + 1) && s.ranks[x].returned == |s.log|
    ensures Inv(if s.updated then t.(comms := MarkSent(s.comms), updated := false, log := s.log + [Snapshot(s.comms)])
                else t.(log := s.log + [[]]))
  {
    hide KnownRecs, KnownKvs, KnownMsg, ServerRight, RankRight;
    var u := if s.updated then t.(comms := MarkSent(s.comms), updated := false, log := s.log + [Snapshot(s.comms)])
             else t.(log := s.log + [[]]);
    assert Waiting(u) == {} == Filled(NoBarrier.slots);
    FireServer(s.comms, s.updated, s.log, s.committed);
    FireKnown(s.book, s.comms);
    forall x | 0 <= x < |u.ranks| ensures RankRight(u.ranks[x], u.log) && KnownRecs(u.book, u.ranks[x].recs) {
      InvRank(s, x);
      EnteredRight(s.ranks[x], |s.log| + 1, s.log);
      LongerLogRight(u.ranks[x], s.log, u.log[|s.log|]);
    }
  }

  lemma FireKnown(b: Book, comms: seq<Kvs>)
    requires AllShaped(comms) && KnownKvs(b, comms)
    ensures KnownMsg(b, Snapshot(comms)) && KnownMsg(b, []) && KnownKvs(b, MarkSent(comms))
  {
    hide KnownPairs;
    SnapshotKnown(b, comms);
    var r := MarkSent(comms);
    assert forall i | 0 <= i < |comms| :: r[i].name == comms[i].name && r[i].pairs == comms[i].pairs;
  }

  lemma FireServer(comms: seq<Kvs>, updated: bool, log: seq<seq<Comm>>, committed: set<(Fact, nat)>)
    requires ServerRight(comms, updated, log, committed)
    ensures updated ==> ServerRight(MarkSent(comms), false, log + [Snapshot(comms)], committed)
    ensures !updated ==> ServerRight(comms, false, log + [[]], committed)
  {
    hide HasFact, HasUnsent, Carries;
    var s := if updated then Snapshot(comms) else [];
    forall f
      ensures Carries(s, f) <==> HasUnsent(comms, f)
      ensures !HasUnsent(MarkSent(comms), f) && (HasFact(MarkSent(comms), f) <==> HasFact(comms, f))
    {
      SnapshotCarries(comms, f);
      CarriesNothing(f);
      MarkSentFacts(comms, f);
    }
    forall i, f | 0 <= i < |log + [s]| ensures Carries((log + [s])[i], f) <==> (f, i) in committed {
      if i < |log| { assert (log + [s])[i] == log[i]; }
    }
    assert forall c | c in committed :: c.1 < |log + [s]|;
  }

  // ---- Returning from a barrier --------------------------------------------

  lemma ReturnRight(b: Book, log: seq<seq<Comm>>, k: Rank)
    requires k.returned < |log| && RankRight(k, log) && KnownRecs(b, k.recs) && KnownMsg(b, log[k.returned])
    ensures var q := Returned(k, log[k.returned]); KnownRecs(b, q.recs) && RankRight(q, log)
  {
    hide Receive, RecHolds, RecHoldsOwn, KnownRecs, KnownMsg, Carries, FirstOnly, FindRec, Delivered;
    var snapshot := log[k.returned];
    var q := Returned(k, snapshot);
    ReceiveShape(b, k.recs, snapshot, k.noDup);
    forall n ensures n in q.since <==> HasRec(q.recs, n) { SameNamesFind(k.recs, q.recs, n); }
    forall f
      ensures RecHoldsOwn(q.recs, f) <==> f in q.puts
      ensures RecHolds(q.recs, f) <==> f in q.puts || Received(q, log, f)
    {
      ReceivedIff(b, k.recs, snapshot, k.noDup, f);
      if f.name in k.since { DeliveredNext(log, k.since[f.name], k.returned, f); }
    }
  }

  lemma DeliveredNext(log: seq<seq<Comm>>, a: nat, b: nat, f: Fact)
    requires a <= b < |log|
    ensures Delivered(log, a, b + 1, f) <==> Delivered(log, a, b, f) || Carries(log[b], f)
  {
    hide Carries;
  }

  lemma ReturnInv(s: Sys, r: nat)
    requires Inv(s) && Enabled(s, Return(r))
    ensures Inv(Step(s, Return(r)))
  {
    hide KnownKvs, KnownMsg, KnownRecs, Counted, RankRight, ServerRight, Receive;
    var k := s.ranks[r];
    var t := Step(s, Return(r));
    InvRank(s, r);
    assert KnownMsg(s.book, s.log[k.returned]);
    ReturnRight(s.book, s.log, k);
    assert Waiting(t) == Waiting(s);
  }

  // ---- All steps -----------------------------------------------------------

  lemma StepInv(s: Sys, a: Action)
    requires Inv(s) && Enabled(s, a)
    ensures Inv(Step(s, a))
  {
    match a
    case Create(r, name) => CreateInv(s, r, name);
    case Put(r, name, key, value) => PutInv(s, r, name, key, value);
    case Commit(r, recs) => CommitInv(s, r, recs);
    case Destroy(r, name) => DestroyInv(s, r, name);
    case Enter(r, port, host) => EnterInv(s, r, port, host);
    case Return(r) => ReturnInv(s, r);
  }
}
