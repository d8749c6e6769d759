/**
 The barrier table of the PMI-1 server against a barrier that remembers who has
 arrived and from where: the counter of responses and the port fields together
 count distinct tasks, and the slots are the addresses of their last requests.
 */
module PmiBarrier {
  import opened PmiServer
  import opened Sets

  /** A barrier that simply remembers who has arrived, and the address each one gave last. */
  datatype Gate = Gate(cnt: nat, arrived: map<nat, Slot>)

  datatype Passage = Passage(gate: Gate, accepted: bool, fired: bool, all: map<nat, Slot>)

  /** The task ids 0 .. n-1. */
  function Tasks(n: nat): (s: set<nat>)
    ensures forall t: nat :: t in s <==> t < n
  {
    if n == 0 then {} else Tasks(n - 1) + {n - 1}
  }

  function Enter(g: Gate, r: Request): Passage {
    if r.size == 0 || (g.cnt != 0 && g.cnt != r.size) then Passage(g, false, false, map[])
    else
      var g1 := if g.cnt == 0 then Gate(r.size, map[]) else g;
      if r.task >= g1.cnt then Passage(g1, false, false, map[])
      else
        var arrived := g1.arrived[r.task := Slot(r.port, r.host)];
        if arrived.Keys == Tasks(g1.cnt) then Passage(Gate(0, map[]), true, true, arrived)
        else Passage(Gate(g1.cnt, arrived), true, false, map[])
  }

  function Filled(slots: seq<Slot>): set<nat> { set t: nat | t < |slots| && slots[t].port != 0 }

  function Listed(slots: seq<Slot>): (m: map<nat, Slot>)
    ensures m.Keys == Filled(slots)
  {
    map t: nat | t < |slots| && slots[t].port != 0 :: slots[t]
  }

  /** The counter is the number of tasks in the table. */
  ghost predicate Counted(b: Barrier) { |b.slots| == b.cnt && b.resp == |Filled(b.slots)| }

  ghost predicate Refines(b: Barrier, g: Gate) { Counted(b) && b.cnt == g.cnt && g.arrived == Listed(b.slots) }

  lemma {:induction false} TasksSize(n: nat)
    ensures |Tasks(n)| == n
  {
    if n > 0 { TasksSize(n - 1); }
  }

  lemma FullBySize(s: set<nat>, n: nat)
    requires s <= Tasks(n)
    ensures |s| == n <==> s == Tasks(n)
  {
    TasksSize(n);
    if |s| == n && s != Tasks(n) {
      var t :| t in Tasks(n) && t !in s;
      SubsetSize(s, Tasks(n) - {t});
      assert false;
    }
  }

  lemma FillSlot(slots: seq<Slot>, t: nat, s: Slot)
    requires t < |slots| && s.port != 0
    ensures Filled(slots[t := s]) == Filled(slots) + {t} && Listed(slots[t := s]) == Listed(slots)[t := s]
  {
  }

  /** A proper request either joins the table or completes the barrier. */
  lemma ArriveEffect(b: Barrier, r: Request)
    requires Counted(b) && r.port != 0 && r.task < r.size && (b.cnt == 0 || b.cnt == r.size)
    ensures var a := Arrive(b, r);
            && a.accepted
            && (if a.fired then a.barrier == NoBarrier && Filled(b.slots) + {r.task} == Tasks(r.size)
                else
                  && a.barrier.cnt == r.size && Counted(a.barrier)
                  && Filled(a.barrier.slots) == Filled(b.slots) + {r.task})
  {
    var slots := if b.cnt == 0 then seq(r.size, i => Slot(0, "")) else b.slots;
    assert b.cnt == 0 ==> Filled(b.slots) == {} && Filled(slots) == {};
    FillSlot(slots, r.task, Slot(r.port, r.host));
    hide Listed;
    var arrived := Filled(slots) + {r.task};
    assert slots[r.task].port != 0 ==> arrived == Filled(slots);
    FullBySize(arrived, r.size);
  }

  /** An accepted request puts its address into the table. */
  lemma AcceptedListed(b: Barrier, r: Request)
    requires |b.slots| == b.cnt && r.port != 0 && Arrive(b, r).accepted
    ensures var a := Arrive(b, r);
            var slots := if a.fired then a.slots else a.barrier.slots;
            |slots| == r.size && Listed(slots) == Listed(b.slots)[r.task := Slot(r.port, r.host)]
  {
    var slots := if b.cnt == 0 then seq(r.size, i => Slot(0, "")) else b.slots;
    assert b.cnt == 0 ==> Listed(b.slots) == map[] && Listed(slots) == map[];
    hide Filled;
    FillSlot(slots, r.task, Slot(r.port, r.host));
  }

  /** With a nonzero port, one request does to the table what it does to the map. */
  lemma ArriveRefines(b: Barrier, g: Gate, r: Request)
    requires Refines(b, g) && r.port != 0
    ensures var a, p := Arrive(b, r), Enter(g, r);
            && Refines(a.barrier, p.gate) && a.accepted == p.accepted && a.fired == p.fired
            && (a.fired ==> |a.slots| == r.size && p.all == Listed(a.slots) && Filled(a.slots) == Tasks(r.size))
  {
    if Arrive(b, r).accepted {
      AcceptedRefines(b, g, r);
    } else {
      hide Tasks;
      assert g.cnt == 0 ==> g.arrived == map[];
    }
  }

  lemma AcceptedRefines(b: Barrier, g: Gate, r: Request)
    requires Refines(b, g) && r.port != 0 && Arrive(b, r).accepted
    ensures var a, p := Arrive(b, r), Enter(g, r);
            && Refines(a.barrier, p.gate) && p.accepted && a.fired == p.fired
            && (a.fired ==> |a.slots| == r.size && p.all == Listed(a.slots) && Filled(a.slots) == Tasks(r.size))
  {
    hide Filled, Listed, Tasks, Arrive;
    EmptyTable(b);
    AcceptedShape(b, r);
    ArriveEffect(b, r);
    AcceptedListed(b, r);
    FullTable(b, r);
  }

  lemma EmptyTable(b: Barrier)
    requires |b.slots| == b.cnt
    ensures b.cnt == 0 ==> Listed(b.slots) == map[]
  {
  }

  lemma AcceptedShape(b: Barrier, r: Request)
    requires |b.slots| == b.cnt && Arrive(b, r).accepted
    ensures r.task < r.size && (b.cnt == 0 || b.cnt == r.size)
  {
  }

  /** The table is empty again, or still lacks someone. */
  lemma FullTable(b: Barrier, r: Request)
    requires Counted(b) && r.port != 0 && Arrive(b, r).accepted
    ensures var a := Arrive(b, r);
            if a.fired then Refines(a.barrier, Gate(0, map[])) && Filled(a.slots) == Tasks(r.size)
            else Filled(a.barrier.slots) != Tasks(r.size)
  {
    ArriveEffect(b, r);
    AcceptedListed(b, r);
    TasksSize(r.size);
  }

  /**
   An accepted request does right if and only if its port is not zero: the count
   is then that of the tasks in the table, and when the request completes the
   barrier, the slots handed over name every task.
   */
  lemma CountRightIff(b: Barrier, r: Request)
    requires Counted(b) && Arrive(b, r).accepted
    ensures var a := Arrive(b, r);
            if a.fired then Filled(a.slots) == Tasks(r.size) <==> r.port != 0
            else a.barrier.resp == |Filled(a.barrier.slots)| <==> r.port != 0
  {
    if r.port != 0 {
      ArriveRefines(b, Gate(b.cnt, Listed(b.slots)), r);
    } else {
      var slots := if b.cnt == 0 then seq(r.size, i => Slot(0, "")) else b.slots;
      assert b.cnt == 0 ==> Filled(b.slots) == {} && Filled(slots) == {};
      assert Filled(slots[r.task := Slot(0, r.host)]) == Filled(slots) - {r.task};
      assert r.task in Tasks(r.size);
    }
  }

  // ---- Whole request sequences ---------------------------------------------

  /** The table before request m, and the gate. */
  function TableAt(b: Barrier, rs: seq<Request>, m: nat): (r: Barrier)
    requires m <= |rs| && |b.slots| == b.cnt
    ensures |r.slots| == r.cnt
  {
    if m == 0 then b else Arrive(TableAt(b, rs, m - 1), rs[m - 1]).barrier
  }

  function GateAt(g: Gate, rs: seq<Request>, m: nat): Gate
    requires m <= |rs|
  {
    if m == 0 then g else Enter(GateAt(g, rs, m - 1), rs[m - 1]).gate
  }

  ghost predicate AllPorts(rs: seq<Request>) { forall i | 0 <= i < |rs| :: rs[i].port != 0 }

  /** Over every request sequence with nonzero ports, the table fires exactly when all tasks have arrived since the last firing. */
  lemma {:induction false} TableCountsTasks(b: Barrier, g: Gate, rs: seq<Request>, m: nat)
    requires Refines(b, g) && m <= |rs| && AllPorts(rs)
    ensures Refines(TableAt(b, rs, m), GateAt(g, rs, m))
    ensures m < |rs| ==> Arrive(TableAt(b, rs, m), rs[m]).fired == Enter(GateAt(g, rs, m), rs[m]).fired
  {
    assert |b.slots| == b.cnt;
    hide Arrive, Enter, Refines;
    if m > 0 {
      TableCountsTasks(b, g, rs, m - 1);
      ArriveRefines(TableAt(b, rs, m - 1), GateAt(g, rs, m - 1), rs[m - 1]);
    }
    if m < |rs| { ArriveRefines(TableAt(b, rs, m), GateAt(g, rs, m), rs[m]); }
  }

  // ---- Whose addresses -----------------------------------------------------

  /** What request m of a run makes of the table. */
  function ArrivalAt(rs: seq<Request>, m: nat): (a: Arrival)
    requires m < |rs|
    ensures |a.barrier.slots| == a.barrier.cnt
  {
    Arrive(TableAt(NoBarrier, rs, m), rs[m])
  }

  /** A request of task t for a barrier of n tasks. */
  predicate From(r: Request, n: nat, t: nat) { r.size == n && r.task == t }

  /** Of the requests before m since the last firing, request j is the last one of task t for n tasks; s is its address. */
  ghost predicate LastFrom(rs: seq<Request>, m: nat, n: nat, t: nat, s: Slot, j: nat) {
    && j < m <= |rs| && From(rs[j], n, t) && s == Slot(rs[j].port, rs[j].host)
    && (forall x | j < x < m :: !From(rs[x], n, t))
    && (forall x | j <= x < m - 1 :: !ArrivalAt(rs, x).fired)
  }

  /** The address a task gave last. */
  ghost predicate LastAddress(rs: seq<Request>, m: nat, n: nat, t: nat, s: Slot) {
    exists j: nat :: LastFrom(rs, m, n, t, s, j)
  }

  /** Every slot in use holds the address its task gave last. */
  ghost predicate Addressed(rs: seq<Request>, m: nat, slots: seq<Slot>) {
    forall t | 0 <= t < |slots| && slots[t].port != 0 :: LastAddress(rs, m, |slots|, t, slots[t])
  }

  /** A request of another task, or for another number of tasks, replaces no address. */
  lemma LastAddressStays(rs: seq<Request>, m: nat, n: nat, t: nat, s: Slot)
    requires m < |rs| && LastAddress(rs, m, n, t, s) && !From(rs[m], n, t) && (m > 0 ==> !ArrivalAt(rs, m - 1).fired)
    ensures LastAddress(rs, m + 1, n, t, s)
  {
    hide ArrivalAt;
    var j: nat :| LastFrom(rs, m, n, t, s, j);
    assert LastFrom(rs, m + 1, n, t, s, j);
  }

  /** The slots request m leaves, or hands over. */
  lemma ArriveAddresses(rs: seq<Request>, m: nat)
    requires m < |rs| && rs[m].port != 0 && Addressed(rs, m, TableAt(NoBarrier, rs, m).slots)
    requires m > 0 && ArrivalAt(rs, m - 1).fired ==> TableAt(NoBarrier, rs, m).slots == []
    ensures var a := ArrivalAt(rs, m);
            Addressed(rs, m + 1, a.barrier.slots) && Addressed(rs, m + 1, a.slots)
  {
    hide TableAt, LastAddress;
    var b, r, a := TableAt(NoBarrier, rs, m), rs[m], ArrivalAt(rs, m);
    var n := r.size;
    var slots := if a.fired then a.slots else a.barrier.slots;
    forall t | 0 <= t < |slots| && slots[t].port != 0 ensures LastAddress(rs, m + 1, |slots|, t, slots[t]) {
      if a.accepted && t == r.task {
        NewestAddress(rs, m);
      } else {
        assert slots[t] == b.slots[t] && |slots| == |b.slots|;
        LastAddressStays(rs, m, |slots|, t, slots[t]);
      }
    }
  }

  lemma NewestAddress(rs: seq<Request>, m: nat)
    requires m < |rs|
    ensures LastAddress(rs, m + 1, rs[m].size, rs[m].task, Slot(rs[m].port, rs[m].host))
  {
    assert LastFrom(rs, m + 1, rs[m].size, rs[m].task, Slot(rs[m].port, rs[m].host), m);
  }

  lemma {:induction false} TableAddresses(rs: seq<Request>, m: nat)
    requires m <= |rs| && AllPorts(rs)
    ensures Addressed(rs, m, TableAt(NoBarrier, rs, m).slots)
    ensures m > 0 && ArrivalAt(rs, m - 1).fired ==> TableAt(NoBarrier, rs, m).slots == []
  {
    hide Addressed;
    if m == 0 {
      NobodyAddressed(rs);
    } else {
      TableAddresses(rs, m - 1);
      ArriveAddresses(rs, m - 1);
    }
  }

  lemma NobodyAddressed(rs: seq<Request>)
    ensures Addressed(rs, 0, [])
  {
  }

  /** In every run, a barrier that fires hands over one slot per task: the address of the task's last request since the firing before. */
  lemma FiredAddresses(rs: seq<Request>, m: nat, t: nat)
    requires m < |rs| && AllPorts(rs) && ArrivalAt(rs, m).fired && t < rs[m].size
    ensures var slots := ArrivalAt(rs, m).slots;
            && |slots| == rs[m].size && slots[t].port != 0
            && LastAddress(rs, m + 1, rs[m].size, t, slots[t])
  {
    hide LastAddress;
    TableAddresses(rs, m);
    ArriveAddresses(rs, m);
    assert Refines(NoBarrier, Gate(0, map[]));
    TableCountsTasks(NoBarrier, Gate(0, map[]), rs, m);
    ArriveRefines(TableAt(NoBarrier, rs, m), GateAt(Gate(0, map[]), rs, m), rs[m]);
    assert t in Filled(ArrivalAt(rs, m).slots);
  }

  // ---- When it fires -------------------------------------------------------

  /** Task t has asked for a barrier of n tasks, from request e on and before m. */
  ghost predicate Came(rs: seq<Request>, e: nat, m: nat, n: nat, t: nat)
    requires m <= |rs|
  {
    exists x | e <= x < m :: From(rs[x], n, t)
  }

  lemma CameNext(rs: seq<Request>, e: nat, m: nat, n: nat, t: nat)
    requires e <= m < |rs|
    ensures Came(rs, e, m + 1, n, t) <==> Came(rs, e, m, n, t) || From(rs[m], n, t)
  {
  }

  /** The table holds the tasks that came since e, when the barrier is for n. */
  ghost predicate Gathered(rs: seq<Request>, e: nat, m: nat, n: nat, b: Barrier)
    requires m <= |rs|
  {
    && Counted(b) && b.cnt == (if m == e then 0 else n)
    && forall t: nat :: t in Filled(b.slots) <==> t < n && Came(rs, e, m, n, t)
  }

  ghost predicate AllCame(rs: seq<Request>, e: nat, m: nat, n: nat)
    requires m <= |rs|
  {
    forall t: nat | t < n :: Came(rs, e, m, n, t)
  }

  lemma EveryoneCame(rs: seq<Request>, e: nat, m: nat, n: nat, s: set<nat>)
    requires m <= |rs| && forall t: nat :: t in s <==> t < n && Came(rs, e, m, n, t)
    ensures s == Tasks(n) <==> AllCame(rs, e, m, n)
  {
    hide Came, Tasks;
    if s == Tasks(n) {
      forall t: nat | t < n ensures Came(rs, e, m, n, t) { assert t in Tasks(n); }
    } else {
      var t :| (t in s) != (t in Tasks(n));
    }
  }

  lemma ProperStep(rs: seq<Request>, e: nat, m: nat, n: nat, b: Barrier)
    requires e <= m < |rs| && rs[m].port != 0 && From(rs[m], n, rs[m].task) && rs[m].task < n
    requires Gathered(rs, e, m, n, b)
    ensures var a := Arrive(b, rs[m]);
            && (!a.fired ==> Gathered(rs, e, m + 1, n, a.barrier))
            && (a.fired <==> AllCame(rs, e, m + 1, n))
  {
    hide Arrive, Came, Filled, Tasks;
    var r, was := rs[m], Filled(b.slots);
    forall t: nat ensures t in was + {r.task} <==> t < n && Came(rs, e, m + 1, n, t) { CameNext(rs, e, m, n, t); }
    ArriveEffect(b, r);
    FullTable(b, r);
    EveryoneCame(rs, e, m + 1, n, was + {r.task});
  }

  lemma OtherStep(rs: seq<Request>, e: nat, m: nat, n: nat, b: Barrier)
    requires e <= m < |rs| && n > 0 && rs[e].size == n && !(rs[m].size == n && rs[m].task < n)
    requires Gathered(rs, e, m, n, b)
    ensures !Arrive(b, rs[m]).fired && Gathered(rs, e, m + 1, n, Arrive(b, rs[m]).barrier)
  {
    hide Came;
    forall t: nat | t < n ensures Came(rs, e, m + 1, n, t) <==> Came(rs, e, m, n, t) { CameNext(rs, e, m, n, t); }
    assert Filled(Arrive(b, rs[m]).barrier.slots) == Filled(b.slots);
  }

  lemma GatheredStep(rs: seq<Request>, e: nat, m: nat, n: nat, b: Barrier)
    requires e <= m < |rs| && AllPorts(rs) && n > 0 && rs[e].size == n && Gathered(rs, e, m, n, b)
    ensures var a, r := Arrive(b, rs[m]), rs[m];
            && (!a.fired ==> Gathered(rs, e, m + 1, n, a.barrier))
            && (a.fired <==> r.size == n && r.task < n && AllCame(rs, e, m + 1, n))
  {
    hide Arrive, AllCame, Filled;
    if rs[m].size == n && rs[m].task < n {
      ProperStep(rs, e, m, n, b);
    } else {
      OtherStep(rs, e, m, n, b);
    }
  }

  lemma {:induction false} EpochGathers(rs: seq<Request>, e: nat, m: nat, n: nat)
    requires e <= m < |rs| && AllPorts(rs) && n > 0 && rs[e].size == n && TableAt(NoBarrier, rs, e).cnt == 0
    requires forall x | e <= x < m :: !ArrivalAt(rs, x).fired
    ensures Gathered(rs, e, m, n, TableAt(NoBarrier, rs, m))
    decreases m
  {
    hide Gathered, Arrive;
    if m == e {
      TableCounted(rs, m);
      NobodyGathered(rs, m, n);
    } else {
      EpochGathers(rs, e, m - 1, n);
      GatheredStep(rs, e, m - 1, n, TableAt(NoBarrier, rs, m - 1));
      assert !ArrivalAt(rs, m - 1).fired;
    }
  }

  lemma TableCounted(rs: seq<Request>, m: nat)
    requires m <= |rs| && AllPorts(rs)
    ensures Counted(TableAt(NoBarrier, rs, m))
  {
    hide TableAt;
    TableCountsTasks(NoBarrier, Gate(0, map[]), rs, m);
  }

  lemma NobodyGathered(rs: seq<Request>, m: nat, n: nat)
    requires m <= |rs| && Counted(TableAt(NoBarrier, rs, m)) && TableAt(NoBarrier, rs, m).cnt == 0
    ensures Gathered(rs, m, m, n, TableAt(NoBarrier, rs, m))
  {
    hide TableAt;
  }

  /**
   In every run, from a request e that finds the table empty and asks for a
   barrier of n tasks: the barrier fires at the first request by which each of
   the n tasks has come for it, whatever else is asked in between.
   */
  lemma FiresWhenAllCame(rs: seq<Request>, e: nat, m: nat)
    requires e <= m < |rs| && AllPorts(rs) && rs[e].size > 0 && TableAt(NoBarrier, rs, e).cnt == 0
    requires forall x | e <= x < m :: !ArrivalAt(rs, x).fired
    ensures var n := rs[e].size;
            ArrivalAt(rs, m).fired
            <==> rs[m].size == n && rs[m].task < n && AllCame(rs, e, m + 1, n)
  {
    hide Gathered, Arrive, AllCame;
    EpochGathers(rs, e, m, rs[e].size);
    GatheredStep(rs, e, m, rs[e].size, TableAt(NoBarrier, rs, m));
  }
}
