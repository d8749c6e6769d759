/**
 The sending side of the PMI-1 server under concurrency (src/api/pmi_server.c,
 _agent and _msg_thread): any number of agents, each starting message threads
 under one shared limit, and freeing its buffers at the end.  Every interleaving
 of the steps between lock operations is a run.
 */
module PmiAgents {

  /**
   Scanning: between messages.  Counted: has raised agent_cnt, thread not yet
   started.  Inline(t): runs message t itself, as it does when the limit is 1.
   Released: has freed the barrier and key-value buffers.
   */
  datatype Phase = Scanning | Counted | Inline(t: nat) | Released

  /** An agent, the messages it has still to start and all those it has to send. */
  datatype Agent = Agent(phase: Phase, left: nat, planned: nat)

  /** A message; while running it reads its agent's buffers. */
  datatype Thread = Thread(owner: nat, running: bool)

  datatype State = State(agents: seq<Agent>, threads: seq<Thread>, cnt: int)

  datatype Action =
    | Arrive(messages: nat)     // a barrier completes and starts an agent
    | Raise(a: nat)             // agent_cnt < agent_max_cnt under the lock: agent_cnt++
    | Spawn(a: nat)             // starts the thread, or runs it inline
    | Finish(t: nat)            // agent_cnt-- under the lock, after the last read
    | Resume(a: nat)            // an inline message has returned
    | Release(a: nat)           // agent_cnt == 0 seen under the lock, then the buffers are freed

  ghost predicate Enabled(s: State, x: Action, max: nat) {
    match x
    case Arrive(_) => true
    case Raise(a) => a < |s.agents| && s.agents[a].phase == Scanning && s.agents[a].left > 0 && s.cnt < max
    case Spawn(a) => a < |s.agents| && s.agents[a].phase == Counted && s.agents[a].left > 0
    case Finish(t) => t < |s.threads| && s.threads[t].running
    case Resume(a) => a < |s.agents| && s.agents[a].phase.Inline?
                      && s.agents[a].phase.t < |s.threads| && !s.threads[s.agents[a].phase.t].running
    case Release(a) => a < |s.agents| && s.agents[a].phase == Scanning && s.agents[a].left == 0 && s.cnt == 0
  }

  ghost function Step(s: State, x: Action, max: nat): State
    requires Enabled(s, x, max)
  {
    match x
    case Arrive(m) => s.(agents := s.agents + [Agent(Scanning, m, m)])
    case Raise(a) => s.(agents := s.agents[a := s.agents[a].(phase := Counted)], cnt := s.cnt + 1)
    case Spawn(a) =>
      var phase := if max == 1 then Inline(|s.threads|) else Scanning;
      s.(agents := s.agents[a := s.agents[a].(phase := phase, left := s.agents[a].left - 1)],
         threads := s.threads + [Thread(a, true)])
    case Finish(t) => s.(threads := s.threads[t := s.threads[t].(running := false)], cnt := s.cnt - 1)
    case Resume(a) => s.(agents := s.agents[a := s.agents[a].(phase := Scanning)])
    case Release(a) => s.(agents := s.agents[a := s.agents[a].(phase := Released)])
  }

  // ---- Counting ------------------------------------------------------------

  ghost function Running(ts: seq<Thread>): nat {
    if ts == [] then 0 else Running(ts[..|ts| - 1]) + if ts[|ts| - 1].running then 1 else 0
  }

  ghost function Starting(as_: seq<Agent>): nat {
    if as_ == [] then 0 else Starting(as_[..|as_| - 1]) + if as_[|as_| - 1].phase == Counted then 1 else 0
  }

  lemma {:induction false} RunningUpdate(ts: seq<Thread>, t: nat, x: Thread)
    requires t < |ts|
    ensures Running(ts[t := x]) == Running(ts) - (if ts[t].running then 1 else 0) + if x.running then 1 else 0
    decreases |ts|
  {
    var n := |ts| - 1;
    if t < n {
      RunningUpdate(ts[..n], t, x);
      assert ts[t := x][..n] == ts[..n][t := x];
    } else {
      assert ts[t := x][..n] == ts[..n];
    }
  }

  lemma {:induction false} StartingUpdate(as_: seq<Agent>, a: nat, x: Agent)
    requires a < |as_|
    ensures Starting(as_[a := x]) == Starting(as_) - (if as_[a].phase == Counted then 1 else 0) + if x.phase == Counted then 1 else 0
    decreases |as_|
  {
    var n := |as_| - 1;
    if a < n {
      StartingUpdate(as_[..n], a, x);
      assert as_[a := x][..n] == as_[..n][a := x];
    } else {
      assert as_[a := x][..n] == as_[..n];
    }
  }

  lemma {:induction false} NoneRunning(ts: seq<Thread>, t: nat)
    requires Running(ts) == 0 && t < |ts|
    ensures !ts[t].running
    decreases |ts|
  {
    if t < |ts| - 1 {
      NoneRunning(ts[..|ts| - 1], t);
      assert ts[..|ts| - 1][t] == ts[t];
    }
  }

  // ---- Safety of every run -------------------------------------------------

  /**
   agent_cnt counts exactly the running messages and the agents about to start
   one, never exceeds the limit, and no message of a released agent is running.
   */
  ghost predicate Safe(s: State, max: nat) {
    && s.cnt == Running(s.threads) + Starting(s.agents)
    && s.cnt <= max
    && (forall a | 0 <= a < |s.agents| && s.agents[a].phase == Counted :: s.agents[a].left > 0)
    && (forall t | 0 <= t < |s.threads| :: s.threads[t].owner < |s.agents|)
    && (forall t | 0 <= t < |s.threads| && s.threads[t].running :: s.agents[s.threads[t].owner].phase != Released)
  }

  lemma StepSafe(s: State, x: Action, max: nat)
    requires Safe(s, max) && Enabled(s, x, max)
    ensures Safe(Step(s, x, max), max)
  {
    hide Running, Starting;
    var r := Step(s, x, max);
    match x
    case Arrive(m) =>
      StartingAppend(s.agents, Agent(Scanning, m, m));
    case Raise(a) =>
      StartingUpdate(s.agents, a, r.agents[a]);
    case Spawn(a) =>
      StartingUpdate(s.agents, a, r.agents[a]);
      RunningAppend(s.threads, Thread(a, true));
    case Finish(t) =>
      RunningUpdate(s.threads, t, r.threads[t]);
    case Resume(a) =>
      StartingUpdate(s.agents, a, r.agents[a]);
    case Release(a) =>
      StartingUpdate(s.agents, a, r.agents[a]);
      forall t | 0 <= t < |s.threads| ensures !s.threads[t].running { NoneRunning(s.threads, t); }
  }

  lemma StartingAppend(as_: seq<Agent>, x: Agent)
    ensures Starting(as_ + [x]) == Starting(as_) + if x.phase == Counted then 1 else 0
  {
    assert (as_ + [x])[..|as_|] == as_;
  }

  lemma RunningAppend(ts: seq<Thread>, x: Thread)
    ensures Running(ts + [x]) == Running(ts) + if x.running then 1 else 0
  {
    assert (ts + [x])[..|ts|] == ts;
  }

  ghost predicate Next(s: State, r: State, max: nat) {
    exists x: Action :: Enabled(s, x, max) && r == Step(s, x, max)
  }

  ghost predicate Run(trace: seq<State>, max: nat) {
    && |trace| > 0 && trace[0] == State([], [], 0)
    && forall i | 0 < i < |trace| :: Next(trace[i - 1], trace[i], max)
  }

  lemma NextSafe(s: State, r: State, max: nat)
    requires Safe(s, max) && Next(s, r, max)
    ensures Safe(r, max)
  {
    hide Safe, Enabled, Step;
    var x: Action :| Enabled(s, x, max) && r == Step(s, x, max);
    StepSafe(s, x, max);
  }

  lemma NextKeepsReleased(s: State, r: State, max: nat, a: nat)
    requires Next(s, r, max) && a < |s.agents| && s.agents[a].phase == Released
    ensures a < |r.agents| && r.agents[a].phase == Released
  {
    var x: Action :| Enabled(s, x, max) && r == Step(s, x, max);
  }

  lemma {:induction false} RunSafe(trace: seq<State>, max: nat, i: nat)
    requires Run(trace, max) && i < |trace|
    ensures Safe(trace[i], max)
  {
    if i > 0 {
      RunSafe(trace, max, i - 1);
      NextSafe(trace[i - 1], trace[i], max);
    }
  }

  ghost function Outstanding(s: State): set<nat> {
    set t: nat | t < |s.threads| && s.threads[t].running
  }

  lemma {:induction false} RunningIsSize(ts: seq<Thread>)
    ensures Running(ts) == |set t: nat | t < |ts| && ts[t].running|
  {
    var all := set t: nat | t < |ts| && ts[t].running;
    if ts != [] {
      var n := |ts| - 1;
      RunningIsSize(ts[..n]);
      var before := set t: nat | t < n && ts[t].running;
      assert before == set t: nat | t < |ts[..n]| && ts[..n][t].running;
      assert all == if ts[n].running then before + {n} else before;
    }
  }

  /** The limit bounds the outstanding messages at every point of every run. */
  lemma OutstandingBounded(trace: seq<State>, max: nat, i: nat)
    requires Run(trace, max) && i < |trace|
    ensures |Outstanding(trace[i])| <= trace[i].cnt <= max
    ensures Starting(trace[i].agents) == 0 ==> trace[i].cnt == |Outstanding(trace[i])|
  {
    RunSafe(trace, max, i);
    RunningIsSize(trace[i].threads);
  }

  /** Once an agent has freed its buffers, now or later in the run, none of its messages is running. */
  lemma {:induction false} FreedBuffersUnread(trace: seq<State>, max: nat, i: nat, j: nat, a: nat, t: nat)
    requires Run(trace, max) && i <= j < |trace|
    requires a < |trace[i].agents| && trace[i].agents[a].phase == Released
    requires t < |trace[j].threads| && trace[j].threads[t].owner == a
    ensures !trace[j].threads[t].running
  {
    ReleasedForGood(trace, max, i, j, a);
    RunSafe(trace, max, j);
  }

  lemma {:induction false} ReleasedForGood(trace: seq<State>, max: nat, i: nat, j: nat, a: nat)
    requires Run(trace, max) && i <= j < |trace|
    requires a < |trace[i].agents| && trace[i].agents[a].phase == Released
    ensures a < |trace[j].agents| && trace[j].agents[a].phase == Released
    decreases j
  {
    if i < j {
      ReleasedForGood(trace, max, i, j - 1, a);
      NextKeepsReleased(trace[j - 1], trace[j], max, a);
    }
  }

  // ---- Every message is sent -----------------------------------------------

  /** The messages an agent has started. */
  ghost function Started(ts: seq<Thread>, a: nat): nat {
    if ts == [] then 0 else Started(ts[..|ts| - 1], a) + if ts[|ts| - 1].owner == a then 1 else 0
  }

  lemma StartedAppend(ts: seq<Thread>, x: Thread, a: nat)
    ensures Started(ts + [x], a) == Started(ts, a) + if x.owner == a then 1 else 0
  {
    assert (ts + [x])[..|ts|] == ts;
  }

  lemma {:induction false} StartedSame(ts: seq<Thread>, us: seq<Thread>, a: nat)
    requires |ts| == |us| && forall t | 0 <= t < |ts| :: ts[t].owner == us[t].owner
    ensures Started(ts, a) == Started(us, a)
  {
    if ts != [] { StartedSame(ts[..|ts| - 1], us[..|us| - 1], a); }
  }

  lemma {:induction false} NoneStarted(ts: seq<Thread>, a: nat)
    requires forall t | 0 <= t < |ts| :: ts[t].owner != a
    ensures Started(ts, a) == 0
  {
    if ts != [] { NoneStarted(ts[..|ts| - 1], a); }
  }

  /** Each agent has started all its messages but those left; a released one has none left; an inline message exists. */
  ghost predicate Planned(s: State) {
    && (forall t | 0 <= t < |s.threads| :: s.threads[t].owner < |s.agents|)
    && forall a | 0 <= a < |s.agents| ::
         && Started(s.threads, a) + s.agents[a].left == s.agents[a].planned
         && (s.agents[a].phase == Released ==> s.agents[a].left == 0)
         && (s.agents[a].phase.Inline? ==> s.agents[a].phase.t < |s.threads|)
  }

  lemma StepPlanned(s: State, x: Action, max: nat)
    requires Planned(s) && Enabled(s, x, max)
    ensures Planned(Step(s, x, max))
  {
    hide Started;
    var r := Step(s, x, max);
    forall a | 0 <= a < |r.agents|
      ensures Started(r.threads, a) + r.agents[a].left == r.agents[a].planned
    {
      match x
      case Arrive(_) => if a == |s.agents| { NoneStarted(s.threads, a); }
      case Spawn(b) => StartedAppend(s.threads, Thread(b, true), a);
      case Finish(_) => StartedSame(s.threads, r.threads, a);
      case _ =>
    }
  }

  lemma {:induction false} RunPlanned(trace: seq<State>, max: nat, i: nat)
    requires Run(trace, max) && i < |trace|
    ensures Planned(trace[i])
  {
    hide Planned, Next;
    if i == 0 {
      NothingPlanned();
    } else {
      RunPlanned(trace, max, i - 1);
      NextPlanned(trace[i - 1], trace[i], max);
    }
  }

  lemma NextPlanned(s: State, r: State, max: nat)
    requires Planned(s) && Next(s, r, max)
    ensures Planned(r)
  {
    hide Planned, Enabled, Step;
    var x: Action :| Enabled(s, x, max) && r == Step(s, x, max);
    StepPlanned(s, x, max);
  }

  lemma NothingPlanned()
    ensures Planned(State([], [], 0))
  {
  }

  /** In every run, an agent that frees its buffers has sent exactly the messages it had to, and all of them are done. */
  lemma ReleasedMeansAllSent(trace: seq<State>, max: nat, i: nat, a: nat)
    requires Run(trace, max) && i < |trace| && a < |trace[i].agents| && trace[i].agents[a].phase == Released
    ensures Started(trace[i].threads, a) == trace[i].agents[a].planned
    ensures forall t | 0 <= t < |trace[i].threads| && trace[i].threads[t].owner == a :: !trace[i].threads[t].running
  {
    RunPlanned(trace, max, i);
    RunSafe(trace, max, i);
  }

  // ---- Nobody waits for nothing --------------------------------------------

  lemma {:induction false} SomeRunning(ts: seq<Thread>) returns (t: nat)
    requires Running(ts) > 0
    ensures t < |ts| && ts[t].running
  {
    t := |ts| - 1;
    if !ts[t].running { t := SomeRunning(ts[..t]); }
  }

  lemma {:induction false} SomeStarting(as_: seq<Agent>) returns (a: nat)
    requires Starting(as_) > 0
    ensures a < |as_| && as_[a].phase == Counted
  {
    a := |as_| - 1;
    if as_[a].phase != Counted { a := SomeStarting(as_[..a]); }
  }

  /** Whoever holds a unit of agent_cnt can move. */
  lemma HolderMoves(s: State, max: nat) returns (x: Action)
    requires Safe(s, max) && s.cnt > 0
    ensures !x.Arrive? && Enabled(s, x, max)
  {
    hide Running, Starting;
    if Running(s.threads) > 0 {
      var t := SomeRunning(s.threads);
      x := Finish(t);
    } else {
      var a := SomeStarting(s.agents);
      x := Spawn(a);
    }
  }

  /** In every run, as long as an agent has not freed its buffers, some step of an agent or a message is possible. */
  lemma NeverStuck(trace: seq<State>, max: nat, i: nat, a: nat) returns (x: Action)
    requires Run(trace, max) && max > 0 && i < |trace|
    requires a < |trace[i].agents| && trace[i].agents[a].phase != Released
    ensures !x.Arrive? && Enabled(trace[i], x, max)
  {
    RunSafe(trace, max, i);
    RunPlanned(trace, max, i);
    hide Run, Started, Running, Starting;
    var s := trace[i];
    match s.agents[a].phase
    case Counted => x := Spawn(a);
    case Inline(t) => x := if s.threads[t].running then Finish(t) else Resume(a);
    case Scanning =>
      if s.agents[a].left > 0 && s.cnt < max {
        x := Raise(a);
      } else if s.agents[a].left == 0 && s.cnt == 0 {
        x := Release(a);
      } else {
        x := HolderMoves(s, max);
      }
  }
}
