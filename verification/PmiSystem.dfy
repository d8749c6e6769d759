/**
 PMI-1 as a whole: n tasks that create spaces, put, commit, enter barriers and
 return from them, one server, and the snapshots of the completed barriers.
 Each task and the server has its own key mode.  A remote call is one step, and
 the puts of a run give one value per key of a space.  Here are the steps, the
 runs and the invariant.
 */
module PmiSystem {
  import opened PmiClient
  import opened PmiServer
  import opened PmiBarrier
  import opened PmiFacts

  /**
   One task: its records and key mode, how many barriers it has entered and
   returned from, its puts, and for each name it has a record of, how many
   barriers it had returned from when it made the first one.
   */
  datatype Rank = Rank(recs: seq<Rec>, noDup: bool, entered: nat, returned: nat,
                       puts: seq<Fact>, since: map<string, nat>)

  datatype Sys = Sys(
    ranks: seq<Rank>,
    comms: seq<Kvs>,
    noDup: bool,
    updated: bool,
    barrier: Barrier,
    log: seq<seq<Comm>>,            // one snapshot per completed barrier
    book: Book,                     // the value of every key put so far
    committed: set<(Fact, nat)>     // committed facts, with the number of barriers the task had entered
  )

  datatype Action =
    | Create(r: nat, name: string)
    | Put(r: nat, name: string, key: string, value: string)
    | Commit(r: nat, recs: seq<Rec>)
    | Destroy(r: nat, name: string)
    | Enter(r: nat, port: nat, host: string)
    | Return(r: nat)

  function NewRank(noDup: bool): Rank { Rank([], noDup, 0, 0, [], map[]) }

  ghost predicate Start(s: Sys) {
    && |s.ranks| > 0 && s.comms == [] && !s.updated && s.barrier == NoBarrier && s.log == []
    && s.book == map[] && s.committed == {}
    && forall r | 0 <= r < |s.ranks| :: s.ranks[r] == NewRank(s.ranks[r].noDup)
  }

  ghost predicate Shape(s: Sys) { AllShaped(s.comms) && |s.barrier.slots| == s.barrier.cnt }

  /** A task inside a barrier does nothing but return from it. */
  ghost predicate Free(s: Sys, r: nat) {
    r < |s.ranks| && s.ranks[r].entered == s.ranks[r].returned
  }

  /** A commit that would make the server write outside a flag table is not a step: nothing is known after it. */
  ghost predicate Enabled(s: Sys, a: Action)
    requires Shape(s)
  {
    match a
    case Create(r, _) => Free(s, r)
    case Put(r, name, key, value) => Free(s, r) && ((name, key) in s.book ==> s.book[(name, key)] == value)
    case Commit(r, recs) =>
      && Free(s, r) && Committed(s.ranks[r].recs, recs)
      && !Overruns(s.comms, CommitMsg(s.ranks[r].recs), s.noDup)
    case Destroy(r, _) => Free(s, r)
    case Enter(r, port, _) => Free(s, r) && port != 0
    case Return(r) => r < |s.ranks| && s.ranks[r].returned < s.ranks[r].entered <= |s.log|
  }

  /** Facts of the task that a commit sends: those in spaces it has not destroyed. */
  ghost function Sendable(k: Rank): set<Fact> { set f | f in k.puts && InUse(k.recs, f.name) }

  function Created(k: Rank, name: string): Rank {
    k.(recs := k.recs + [Rec(name, false, [])],
       since := if name in k.since then k.since else k.since[name := k.returned])
  }

  function PutLocal(k: Rank, name: string, key: string, value: string): Rank {
    k.(recs := PutRec(k.recs, name, key, value, true, k.noDup), puts := k.puts + [Fact(name, key, value)])
  }

  function Returned(k: Rank, snapshot: seq<Comm>): Rank {
    k.(recs := Receive(k.recs, snapshot, k.noDup), returned := k.returned + 1)
  }

  /** What a step does to the task that takes it. */
  function RankAfter(k: Rank, a: Action, log: seq<seq<Comm>>): Rank
    requires a.Return? ==> k.returned < |log|
  {
    match a
    case Create(_, name) => Created(k, name)
    case Put(_, name, key, value) => if HasRec(k.recs, name) then PutLocal(k, name, key, value) else k
    case Commit(_, recs) => k.(recs := recs)
    case Destroy(_, name) => k.(recs := MarkDefunct(k.recs, name))
    case Enter(_, _, _) => k.(entered := k.entered + 1)
    case Return(_) => Returned(k, log[k.returned])
  }

  ghost function Step(s: Sys, a: Action): (t: Sys)
    requires Shape(s) && Enabled(s, a)
  {
    var k := s.ranks[a.r];
    var t := s.(ranks := s.ranks[a.r := RankAfter(k, a, s.log)]);
    match a
    case Put(r, name, key, value) => if HasRec(k.recs, name) then t.(book := s.book[(name, key) := value]) else t
    case Commit(r, recs) =>
      t.(comms := PutSet(s.comms, CommitMsg(k.recs), s.noDup), updated := true,
         committed := s.committed + set f | f in Sendable(k) :: (f, k.entered))
    case Enter(r, port, host) =>
      var b := Arrive(s.barrier, Request(|s.ranks|, r, port, host));
      var u := t.(barrier := b.barrier);
      if !b.fired then u
      else if s.updated then u.(comms := MarkSent(s.comms), updated := false, log := s.log + [Snapshot(s.comms)])
      else u.(log := s.log + [[]])
    case _ => t
  }

  lemma StepRanks(s: Sys, a: Action)
    requires Shape(s) && Enabled(s, a)
    ensures a.r < |s.ranks| && (a.Return? ==> s.ranks[a.r].returned < |s.log|)
    ensures Step(s, a).ranks == s.ranks[a.r := RankAfter(s.ranks[a.r], a, s.log)]
  {
    hide RankAfter, Arrive, PutSet, CommitMsg, Sendable, Overruns, Committed;
  }

  // ---- Invariants ----------------------------------------------------------

  /** No task is more than one barrier ahead of the completed ones, and none returns early. */
  ghost predicate InStep(s: Sys) {
    forall r | 0 <= r < |s.ranks| ::
      && |s.log| <= s.ranks[r].entered <= |s.log| + 1
      && s.ranks[r].returned <= |s.log|
      && s.ranks[r].returned <= s.ranks[r].entered <= s.ranks[r].returned + 1
  }

  /** The tasks waiting for the barrier that is not complete yet. */
  ghost function Waiting(s: Sys): set<nat> {
    set r: nat | r < |s.ranks| && s.ranks[r].entered == |s.log| + 1
  }

  ghost predicate TableRight(s: Sys) {
    && |s.ranks| > 0
    && (s.barrier.cnt == 0 || s.barrier.cnt == |s.ranks|)
    && Counted(s.barrier) && Filled(s.barrier.slots) == Waiting(s)
  }

  ghost predicate AllKnown(s: Sys) {
    && KnownKvs(s.book, s.comms)
    && (forall i | 0 <= i < |s.log| :: KnownMsg(s.book, s.log[i]))
    && (forall r | 0 <= r < |s.ranks| :: KnownRecs(s.book, s.ranks[r].recs))
  }

  /**
   The server and its snapshots against what was committed: it has the committed
   facts, will send those committed since the last barrier, and snapshot i
   carried exactly those committed between barriers i-1 and i.
   */
  ghost predicate ServerRight(comms: seq<Kvs>, updated: bool, log: seq<seq<Comm>>, committed: set<(Fact, nat)>) {
    && AllShaped(comms)
    && (forall c | c in committed :: c.1 <= |log| && HasFact(comms, c.0))
    && (forall f | HasFact(comms, f) :: exists e: nat :: (f, e) in committed)
    && (forall f :: HasUnsent(comms, f) <==> (f, |log|) in committed)
    && (forall i, f | 0 <= i < |log| :: Carries(log[i], f) <==> (f, i) in committed)
    && (!updated ==> forall f :: !HasUnsent(comms, f))
  }

  /** Some snapshot from number a up to b carries the fact. */
  ghost predicate Delivered(log: seq<seq<Comm>>, a: nat, b: nat, f: Fact) {
    exists i | 0 <= i < |log| :: a <= i < b && Carries(log[i], f)
  }

  /** The task has returned with a snapshot that carries the fact since it has a record of its space. */
  ghost predicate Received(k: Rank, log: seq<seq<Comm>>, f: Fact) {
    f.name in k.since && Delivered(log, k.since[f.name], k.returned, f)
  }

  /** A task holds what it put and what it received, and nothing else. */
  ghost predicate RankRight(k: Rank, log: seq<seq<Comm>>) {
    && k.returned <= |log| && FirstOnly(k.recs)
    && (forall n :: n in k.since <==> HasRec(k.recs, n))
    && (forall n | n in k.since :: k.since[n] <= k.returned)
    && (forall f :: RecHoldsOwn(k.recs, f) <==> f in k.puts)
    && (forall f :: RecHolds(k.recs, f) <==> f in k.puts || Received(k, log, f))
  }

  ghost predicate RanksRight(s: Sys) {
    forall r | 0 <= r < |s.ranks| :: RankRight(s.ranks[r], s.log)
  }

  ghost predicate Inv(s: Sys) {
    && Shape(s) && InStep(s) && TableRight(s) && AllKnown(s)
    && ServerRight(s.comms, s.updated, s.log, s.committed) && RanksRight(s)
  }

  // ---- Runs ----------------------------------------------------------------

  ghost predicate Next(s: Sys, t: Sys) {
    Shape(s) && exists a: Action :: Enabled(s, a) && t == Step(s, a)
  }

  ghost predicate Run(trace: seq<Sys>) {
    && |trace| > 0 && Start(trace[0])
    && forall i | 0 < i < |trace| :: Next(trace[i - 1], trace[i])
  }

  lemma StartInv(s: Sys)
    requires Start(s)
    ensures Inv(s)
  {
    assert Waiting(s) == {} == Filled(s.barrier.slots);
  }
}
