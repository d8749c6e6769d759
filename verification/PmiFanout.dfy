/**
 How the PMI-1 server's agent reaches the tasks of a completed barrier
 (src/api/pmi_server.c, _agent): one message per head task, each with a list of
 tasks the head forwards to.
 */
module PmiFanout {
  import opened PmiServer
  import opened PmiBarrier

  /** A message to task `head`, to be forwarded to the tasks `to`, at the addresses `hosts`. */
  datatype Msg = Msg(head: nat, to: seq<nat>, hosts: seq<Slot>)

  /** Forwarding stays on one host unless off-host fan-out is on. */
  function GroupOf(s: Slot, offHost: bool): string { if offHost then "" else s.host }

  predicate Waits(slots: seq<Slot>, j: nat, g: string, offHost: bool)
    requires j < |slots|
  {
    slots[j].port != 0 && GroupOf(slots[j], offHost) == g
  }

  // ---- The plan ------------------------------------------------------------

  /** The first `room` waiting tasks of the group from j on. */
  function Take(slots: seq<Slot>, g: string, offHost: bool, j: nat, room: nat): seq<nat>
    requires j <= |slots|
    decreases |slots| - j
  {
    if j == |slots| || room == 0 then []
    else if Waits(slots, j, g, offHost) then [j] + Take(slots, g, offHost, j + 1, room - 1)
    else Take(slots, g, offHost, j + 1, room)
  }

  /** Waiting tasks of the group at or after j, each once, in order. */
  ghost predicate Taken(slots: seq<Slot>, g: string, offHost: bool, j: nat, t: seq<nat>) {
    && (forall x | 0 <= x < |t| :: j <= t[x] < |slots| && Waits(slots, t[x], g, offHost))
    && (forall x, y | 0 <= x < y < |t| :: t[x] < t[y])
  }

  lemma {:induction false} TakeTakes(slots: seq<Slot>, g: string, offHost: bool, j: nat, room: nat)
    requires j <= |slots|
    ensures var t := Take(slots, g, offHost, j, room);
            |t| <= room && Taken(slots, g, offHost, j, t)
    decreases |slots| - j
  {
    if j < |slots| && room > 0 {
      TakeTakes(slots, g, offHost, j + 1, if Waits(slots, j, g, offHost) then room - 1 else room);
    }
  }

  /** Nobody who waits is passed over: the tasks taken are the next ones, and all of them when there is room. */
  lemma {:induction false} TakePassesNobody(slots: seq<Slot>, g: string, offHost: bool, j: nat, room: nat, y: nat)
    requires j <= y < |slots| && Waits(slots, y, g, offHost)
    ensures var t := Take(slots, g, offHost, j, room);
            y in t || (|t| == room && forall x | 0 <= x < room :: t[x] < y)
    decreases |slots| - j
  {
    if room > 0 && y > j {
      TakePassesNobody(slots, g, offHost, j + 1, if Waits(slots, j, g, offHost) then room - 1 else room, y);
    }
  }

  /** Their ports are cleared so that nobody is sent to twice. */
  function Clear(slots: seq<Slot>, t: seq<nat>): (r: seq<Slot>)
    ensures |r| == |slots|
  {
    seq(|slots|, j requires 0 <= j < |slots| => if j in t then slots[j].(port := 0) else slots[j])
  }

  /** The addresses of tasks. */
  function Addresses(slots: seq<Slot>, t: seq<nat>): (r: seq<Slot>)
    ensures |r| == |t|
  {
    seq(|t|, x requires 0 <= x < |t| => if t[x] < |slots| then slots[t[x]] else Slot(0, ""))
  }

  function Plan(slots: seq<Slot>, fanout: nat, offHost: bool, i: nat): seq<Msg>
    requires i <= |slots|
    decreases |slots| - i
  {
    if i == |slots| then []
    else if slots[i].port == 0 then Plan(slots, fanout, offHost, i + 1)
    else
      var t := Take(slots, GroupOf(slots[i], offHost), offHost, i + 1, fanout);
      [Msg(i, t, Addresses(slots, t))] + Plan(Clear(slots, t), fanout, offHost, i + 1)
  }

  /** The slots when all messages are out. */
  function After(slots: seq<Slot>, fanout: nat, offHost: bool, i: nat): (r: seq<Slot>)
    requires i <= |slots|
    ensures |r| == |slots|
    decreases |slots| - i
  {
    if i == |slots| then slots
    else if slots[i].port == 0 then After(slots, fanout, offHost, i + 1)
    else After(Clear(slots, Take(slots, GroupOf(slots[i], offHost), offHost, i + 1, fanout)), fanout, offHost, i + 1)
  }

  lemma PlanStep(slots: seq<Slot>, fanout: nat, offHost: bool, i: nat)
    requires i < |slots|
    ensures Plan(slots, fanout, offHost, i) ==
            if slots[i].port == 0 then Plan(slots, fanout, offHost, i + 1)
            else
              var t := Take(slots, GroupOf(slots[i], offHost), offHost, i + 1, fanout);
              [Msg(i, t, Addresses(slots, t))] + Plan(Clear(slots, t), fanout, offHost, i + 1)
    ensures After(slots, fanout, offHost, i) ==
            if slots[i].port == 0 then After(slots, fanout, offHost, i + 1)
            else After(Clear(slots, Take(slots, GroupOf(slots[i], offHost), offHost, i + 1, fanout)), fanout, offHost, i + 1)
  {
  }

  lemma {:induction false} AfterKeepsEarlier(slots: seq<Slot>, fanout: nat, offHost: bool, i: nat, j: nat)
    requires j < i <= |slots|
    ensures After(slots, fanout, offHost, i)[j] == slots[j]
    decreases |slots| - i
  {
    if i < |slots| {
      hide Take, Clear;
      if slots[i].port == 0 {
        AfterKeepsEarlier(slots, fanout, offHost, i + 1, j);
      } else {
        var t := Take(slots, GroupOf(slots[i], offHost), offHost, i + 1, fanout);
        TakeTakes(slots, GroupOf(slots[i], offHost), offHost, i + 1, fanout);
        ClearLeaves(slots, t, j);
        AfterKeepsEarlier(Clear(slots, t), fanout, offHost, i + 1, j);
      }
    }
  }

  /** The slot of a head, which its message thread reads while the loop goes on, keeps its address to the end. */
  lemma {:induction false} HeadsKept(slots: seq<Slot>, fanout: nat, offHost: bool, i: nat, k: nat)
    requires i <= |slots| && k < |Plan(slots, fanout, offHost, i)|
    ensures var h := Plan(slots, fanout, offHost, i)[k].head;
            i <= h < |slots| && slots[h].port != 0 && After(slots, fanout, offHost, i)[h] == slots[h]
    decreases |slots| - i
  {
    hide *;
    if i < |slots| {
      PlanStep(slots, fanout, offHost, i);
      if slots[i].port == 0 {
        HeadsKept(slots, fanout, offHost, i + 1, k);
      } else {
        var t := Take(slots, GroupOf(slots[i], offHost), offHost, i + 1, fanout);
        var r := Clear(slots, t);
        var rest := Plan(r, fanout, offHost, i + 1);
        NthMessage(Msg(i, t, Addresses(slots, t)), rest, k);
        if k == 0 {
          AfterKeepsEarlier(r, fanout, offHost, i + 1, i);
          TakeLeaves(slots, GroupOf(slots[i], offHost), offHost, i, fanout);
          ClearLeaves(slots, t, i);
        } else {
          HeadsKept(r, fanout, offHost, i + 1, k - 1);
          ClearLeaves(slots, t, rest[k - 1].head);
        }
      }
    } else {
      PlanNone(slots, fanout, offHost);
    }
  }

  lemma NthMessage(m: Msg, rest: seq<Msg>, k: nat)
    requires k < 1 + |rest|
    ensures ([m] + rest)[k] == if k == 0 then m else rest[k - 1]
  {
  }

  /** The messages go out in the order of their heads. */
  lemma {:induction false} HeadsAscend(slots: seq<Slot>, fanout: nat, offHost: bool, i: nat, k: nat, l: nat)
    requires i <= |slots| && k < l < |Plan(slots, fanout, offHost, i)|
    ensures Plan(slots, fanout, offHost, i)[k].head < Plan(slots, fanout, offHost, i)[l].head
    decreases |slots| - i
  {
    hide *;
    if i < |slots| {
      PlanStep(slots, fanout, offHost, i);
      if slots[i].port == 0 {
        HeadsAscend(slots, fanout, offHost, i + 1, k, l);
      } else {
        var t := Take(slots, GroupOf(slots[i], offHost), offHost, i + 1, fanout);
        var r := Clear(slots, t);
        var rest := Plan(r, fanout, offHost, i + 1);
        NthMessage(Msg(i, t, Addresses(slots, t)), rest, k);
        NthMessage(Msg(i, t, Addresses(slots, t)), rest, l);
        if k == 0 {
          HeadsKept(r, fanout, offHost, i + 1, l - 1);
        } else {
          HeadsAscend(r, fanout, offHost, i + 1, k - 1, l - 1);
        }
      }
    } else {
      PlanNone(slots, fanout, offHost);
    }
  }

  lemma ClearLeaves(slots: seq<Slot>, t: seq<nat>, j: nat)
    requires j < |slots|
    ensures j !in t || Clear(slots, t)[j].port != 0 ==> Clear(slots, t)[j] == slots[j]
  {
  }

  lemma TakeLeaves(slots: seq<Slot>, g: string, offHost: bool, i: nat, room: nat)
    requires i < |slots|
    ensures i !in Take(slots, g, offHost, i + 1, room)
  {
    TakeTakes(slots, g, offHost, i + 1, room);
  }

  lemma PlanNone(slots: seq<Slot>, fanout: nat, offHost: bool)
    ensures Plan(slots, fanout, offHost, |slots|) == [] && After(slots, fanout, offHost, |slots|) == slots
  {
  }

  // ---- Everyone is reached exactly once ------------------------------------

  /** Heads and forwards of all the messages. */
  function Reached(ms: seq<Msg>): seq<nat> {
    if ms == [] then [] else [ms[0].head] + ms[0].to + Reached(ms[1..])
  }

  /** Each waiting task from i on occurs once, nobody else occurs. */
  lemma {:induction false} PlanPartitions(slots: seq<Slot>, fanout: nat, offHost: bool, i: nat, x: nat)
    requires i <= |slots|
    ensures multiset(Reached(Plan(slots, fanout, offHost, i)))[x]
         == if i <= x < |slots| && slots[x].port != 0 then 1 else 0
    decreases |slots| - i
  {
    hide *;
    if i == |slots| {
      PlanNone(slots, fanout, offHost);
      ReachedNone();
    } else {
      PlanStep(slots, fanout, offHost, i);
      if slots[i].port == 0 {
        PlanPartitions(slots, fanout, offHost, i + 1, x);
      } else {
        var t := Take(slots, GroupOf(slots[i], offHost), offHost, i + 1, fanout);
        PlanPartitions(Clear(slots, t), fanout, offHost, i + 1, x);
        FirstReaches(slots, fanout, offHost, i, x, Plan(Clear(slots, t), fanout, offHost, i + 1));
        if x < |slots| { ClearEffect(slots, t, x); }
      }
    }
  }

  /** Whom the first message adds to those that later ones reach. */
  lemma FirstReaches(slots: seq<Slot>, fanout: nat, offHost: bool, i: nat, x: nat, rest: seq<Msg>)
    requires i < |slots|
    ensures var t := Take(slots, GroupOf(slots[i], offHost), offHost, i + 1, fanout);
            && multiset(Reached([Msg(i, t, Addresses(slots, t))] + rest))[x]
               == multiset(Reached(rest))[x] + (if x == i || x in t then 1 else 0)
            && (x in t ==> i < x < |slots| && slots[x].port != 0)
  {
    hide Take, Addresses, Reached, Plan;
    var t := Take(slots, GroupOf(slots[i], offHost), offHost, i + 1, fanout);
    TakeTakes(slots, GroupOf(slots[i], offHost), offHost, i + 1, fanout);
    AscendingCount(t, x);
    ReachedFirst(Msg(i, t, Addresses(slots, t)), rest);
  }

  lemma ReachedNone()
    ensures multiset(Reached([])) == multiset{}
  {
  }

  lemma ReachedFirst(m: Msg, rest: seq<Msg>)
    ensures multiset(Reached([m] + rest)) == multiset{m.head} + multiset(m.to) + multiset(Reached(rest))
  {
    assert ([m] + rest)[1..] == rest;
  }

  lemma ClearEffect(slots: seq<Slot>, t: seq<nat>, x: nat)
    requires x < |slots|
    ensures Clear(slots, t)[x].port == if x in t then 0 else slots[x].port
  {
  }

  lemma {:induction false} AscendingCount(t: seq<nat>, x: nat)
    requires forall a, b | 0 <= a < b < |t| :: t[a] < t[b]
    ensures multiset(t)[x] == if x in t then 1 else 0
  {
    if t != [] {
      AscendingCount(t[1..], x);
      assert t == [t[0]] + t[1..];
    }
  }

  /** Every message of the plan: bounded forwards, one group, addresses as they were. */
  ghost predicate Proper(m: Msg, slots: seq<Slot>, fanout: nat, offHost: bool) {
    && m.head < |slots| && |m.to| <= fanout && |m.hosts| == |m.to|
    && forall x | 0 <= x < |m.to| ::
         && m.head < m.to[x] < |slots|
         && (offHost || slots[m.to[x]].host == slots[m.head].host)
         && m.hosts[x] == slots[m.to[x]]
         && m.hosts[x].port != 0
  }

  lemma {:induction false} PlanProper(slots: seq<Slot>, slots0: seq<Slot>, fanout: nat, offHost: bool, i: nat)
    requires i <= |slots| == |slots0|
    requires forall j | 0 <= j < |slots| ::
               slots[j].host == slots0[j].host && (slots[j].port != 0 ==> slots[j] == slots0[j])
    ensures forall k | 0 <= k < |Plan(slots, fanout, offHost, i)| ::
              Proper(Plan(slots, fanout, offHost, i)[k], slots0, fanout, offHost)
    decreases |slots| - i
  {
    hide Plan, Take, Clear, Addresses, Proper;
    if i == |slots| {
      PlanNone(slots, fanout, offHost);
    } else {
      PlanStep(slots, fanout, offHost, i);
      if slots[i].port == 0 {
        PlanProper(slots, slots0, fanout, offHost, i + 1);
      } else {
        var t := Take(slots, GroupOf(slots[i], offHost), offHost, i + 1, fanout);
        MessageProper(slots, slots0, fanout, offHost, i);
        ClearKeeps(slots, slots0, t);
        PlanProper(Clear(slots, t), slots0, fanout, offHost, i + 1);
      }
    }
  }

  lemma MessageProper(slots: seq<Slot>, slots0: seq<Slot>, fanout: nat, offHost: bool, i: nat)
    requires i < |slots| == |slots0|
    requires forall j | 0 <= j < |slots| ::
               slots[j].host == slots0[j].host && (slots[j].port != 0 ==> slots[j] == slots0[j])
    ensures var t := Take(slots, GroupOf(slots[i], offHost), offHost, i + 1, fanout);
            Proper(Msg(i, t, Addresses(slots, t)), slots0, fanout, offHost)
  {
    hide Take;
    TakeTakes(slots, GroupOf(slots[i], offHost), offHost, i + 1, fanout);
  }

  lemma ClearKeeps(slots: seq<Slot>, slots0: seq<Slot>, t: seq<nat>)
    requires |slots| == |slots0|
    requires forall j | 0 <= j < |slots| ::
               slots[j].host == slots0[j].host && (slots[j].port != 0 ==> slots[j] == slots0[j])
    ensures var r := Clear(slots, t);
            forall j | 0 <= j < |r| :: r[j].host == slots0[j].host && (r[j].port != 0 ==> r[j] == slots0[j])
  {
  }

  // ---- How many messages ---------------------------------------------------

  /** How many parcels of at most d things hold x things. */
  function CeilDiv(x: nat, d: nat): nat
    requires d > 0
  {
    if x == 0 then 0 else 1 + CeilDiv(if x < d then 0 else x - d, d)
  }

  /** It is x / d rounded up. */
  lemma {:induction false} CeilDivRoundsUp(x: nat, d: nat)
    requires d > 0
    ensures var q := CeilDiv(x, d);
            x <= q * d < x + d
  {
    if x > 0 {
      CeilDivRoundsUp(if x < d then 0 else x - d, d);
      var q := CeilDiv(x, d);
      assert q * d == (q - 1) * d + d;
    }
  }

  /** Waiting tasks of a group from i on. */
  function WaitingIn(slots: seq<Slot>, g: string, offHost: bool, i: nat): nat
    requires i <= |slots|
    decreases |slots| - i
  {
    if i == |slots| then 0
    else (if Waits(slots, i, g, offHost) then 1 else 0) + WaitingIn(slots, g, offHost, i + 1)
  }

  /** Messages whose head is in the group. */
  function MessagesTo(ms: seq<Msg>, slots: seq<Slot>, g: string, offHost: bool): nat
    requires forall k | 0 <= k < |ms| :: ms[k].head < |slots|
  {
    if ms == [] then 0
    else (if GroupOf(slots[ms[0].head], offHost) == g then 1 else 0) + MessagesTo(ms[1..], slots, g, offHost)
  }

  /** Taking from a group takes as many as there are, up to the room, and leaves other groups alone. */
  lemma {:induction false} TakeCounts(slots: seq<Slot>, g: string, offHost: bool, j: nat, room: nat)
    requires j <= |slots|
    ensures var c := WaitingIn(slots, g, offHost, j);
            |Take(slots, g, offHost, j, room)| == if c < room then c else room
    decreases |slots| - j
  {
    if j < |slots| && room > 0 {
      if Waits(slots, j, g, offHost) {
        TakeCounts(slots, g, offHost, j + 1, room - 1);
      } else {
        TakeCounts(slots, g, offHost, j + 1, room);
      }
    }
  }

  /** Occurrences of indices from j on. */
  ghost function CountFrom(t: seq<nat>, j: nat): nat {
    if t == [] then 0 else (if t[0] >= j then 1 else 0) + CountFrom(t[1..], j)
  }

  lemma {:induction false} CountFromStep(t: seq<nat>, j: nat)
    requires forall a, b | 0 <= a < b < |t| :: t[a] < t[b]
    ensures CountFrom(t, j) == CountFrom(t, j + 1) + if j in t then 1 else 0
  {
    if t != [] {
      CountFromStep(t[1..], j);
      assert t == [t[0]] + t[1..];
    }
  }

  lemma {:induction false} CountFromAll(t: seq<nat>, j: nat)
    requires forall x | 0 <= x < |t| :: j <= t[x]
    ensures CountFrom(t, j) == |t|
  {
    if t != [] { CountFromAll(t[1..], j); }
  }

  lemma {:induction false} CountFromNone(t: seq<nat>, j: nat)
    requires forall x | 0 <= x < |t| :: t[x] < j
    ensures CountFrom(t, j) == 0
  {
    if t != [] { CountFromNone(t[1..], j); }
  }

  lemma {:induction false} ClearCounts(slots: seq<Slot>, t: seq<nat>, g: string, h: string, offHost: bool, j: nat)
    requires j <= |slots|
    requires Taken(slots, g, offHost, 0, t)
    ensures WaitingIn(slots, h, offHost, j)
         == WaitingIn(Clear(slots, t), h, offHost, j) + if h == g then CountFrom(t, j) else 0
    decreases |slots| - j
  {
    if j == |slots| {
      CountFromNone(t, j);
    } else {
      ClearCounts(slots, t, g, h, offHost, j + 1);
      CountFromStep(t, j);
      var r := Clear(slots, t);
      if j in t {
        var x :| 0 <= x < |t| && t[x] == j;
        assert Waits(slots, t[x], g, offHost) && !Waits(r, j, h, offHost);
      } else {
        assert r[j] == slots[j];
      }
    }
  }

  /** Each group of c waiting tasks costs exactly ceil(c / (fanout + 1)) messages. */
  lemma {:induction false} MessagesPerGroup(slots: seq<Slot>, slots0: seq<Slot>, fanout: nat, offHost: bool, i: nat, h: string)
    requires i <= |slots| == |slots0| && forall j | 0 <= j < |slots| :: slots[j].host == slots0[j].host
    ensures var ms := Plan(slots, fanout, offHost, i);
            && (forall k | 0 <= k < |ms| :: ms[k].head < |slots0|)
            && MessagesTo(ms, slots0, h, offHost) == CeilDiv(WaitingIn(slots, h, offHost, i), fanout + 1)
    decreases |slots| - i
  {
    hide Plan, Take, Clear, WaitingIn, Addresses, CeilDiv, MessagesTo;
    if i < |slots| {
      PlanStep(slots, fanout, offHost, i);
      HeadCounts(slots, fanout, offHost, i, h);
      if slots[i].port == 0 {
        MessagesPerGroup(slots, slots0, fanout, offHost, i + 1, h);
      } else {
        var t := Take(slots, GroupOf(slots[i], offHost), offHost, i + 1, fanout);
        ClearKeepsHosts(slots, t, slots0);
        MessagesPerGroup(Clear(slots, t), slots0, fanout, offHost, i + 1, h);
        OneMore(Msg(i, t, Addresses(slots, t)), Plan(Clear(slots, t), fanout, offHost, i + 1), slots0, h, offHost);
        CeilDivStep(WaitingIn(slots, h, offHost, i), fanout + 1);
      }
    } else {
      PlanNone(slots, fanout, offHost);
      NoneWaiting(slots, h, offHost);
      NoMessages(slots0, h, offHost, fanout + 1);
    }
  }

  lemma OneMore(m: Msg, rest: seq<Msg>, slots: seq<Slot>, h: string, offHost: bool)
    requires m.head < |slots| && forall k | 0 <= k < |rest| :: rest[k].head < |slots|
    ensures forall k | 0 <= k < |[m] + rest| :: ([m] + rest)[k].head < |slots|
    ensures MessagesTo([m] + rest, slots, h, offHost)
            == MessagesTo(rest, slots, h, offHost) + if GroupOf(slots[m.head], offHost) == h then 1 else 0
  {
    assert ([m] + rest)[1..] == rest;
  }

  lemma NoMessages(slots: seq<Slot>, h: string, offHost: bool, d: nat)
    requires d > 0
    ensures MessagesTo([], slots, h, offHost) == 0 == CeilDiv(0, d)
  {
  }

  lemma CeilDivStep(x: nat, d: nat)
    requires d > 0
    ensures x > 0 ==> CeilDiv(x, d) == 1 + CeilDiv(if x < d then 0 else x - d, d)
  {
  }

  lemma NoneWaiting(slots: seq<Slot>, h: string, offHost: bool)
    ensures WaitingIn(slots, h, offHost, |slots|) == 0
  {
  }

  lemma ClearKeepsHosts(slots: seq<Slot>, t: seq<nat>, slots0: seq<Slot>)
    requires |slots| == |slots0| && forall j | 0 <= j < |slots| :: slots[j].host == slots0[j].host
    ensures forall j | 0 <= j < |slots| :: Clear(slots, t)[j].host == slots0[j].host
  {
  }

  /** One message takes its head and up to fanout more of the head's group. */
  lemma HeadCounts(slots: seq<Slot>, fanout: nat, offHost: bool, i: nat, h: string)
    requires i < |slots|
    ensures slots[i].port != 0 ==>
              var g := GroupOf(slots[i], offHost);
              var c := WaitingIn(slots, h, offHost, i);
              var t := Take(slots, g, offHost, i + 1, fanout);
              && (g == h ==> c > 0)
              && WaitingIn(Clear(slots, t), h, offHost, i + 1) == if h != g then c else if c < fanout + 1 then 0 else c - (fanout + 1)
    ensures slots[i].port == 0 ==> WaitingIn(slots, h, offHost, i) == WaitingIn(slots, h, offHost, i + 1)
  {
    var g := GroupOf(slots[i], offHost);
    var t := Take(slots, g, offHost, i + 1, fanout);
    TakeTakes(slots, g, offHost, i + 1, fanout);
    TakeCounts(slots, g, offHost, i + 1, fanout);
    ClearCounts(slots, t, g, h, offHost, i + 1);
    CountFromAll(t, i + 1);
  }

  /** The sum over a list of distinct groups. */
  function SumMessages(ms: seq<Msg>, slots: seq<Slot>, gs: seq<string>, offHost: bool): nat
    requires forall k | 0 <= k < |ms| :: ms[k].head < |slots|
  {
    if gs == [] then 0 else MessagesTo(ms, slots, gs[0], offHost) + SumMessages(ms, slots, gs[1..], offHost)
  }

  function SumCeil(slots: seq<Slot>, fanout: nat, gs: seq<string>, offHost: bool): nat {
    if gs == [] then 0
    else CeilDiv(WaitingIn(slots, gs[0], offHost, 0), fanout + 1) + SumCeil(slots, fanout, gs[1..], offHost)
  }

  ghost predicate Distinct(gs: seq<string>) { forall a, b | 0 <= a < b < |gs| :: gs[a] != gs[b] }

  lemma {:induction false} SumDropsOne(ms: seq<Msg>, slots: seq<Slot>, gs: seq<string>, offHost: bool)
    requires ms != [] && (forall k | 0 <= k < |ms| :: ms[k].head < |slots|) && Distinct(gs)
    ensures SumMessages(ms, slots, gs, offHost)
         == SumMessages(ms[1..], slots, gs, offHost) + if GroupOf(slots[ms[0].head], offHost) in gs then 1 else 0
  {
    if gs != [] {
      SumDropsOne(ms, slots, gs[1..], offHost);
      assert gs == [gs[0]] + gs[1..];
    }
  }

  lemma {:induction false} SumIsLength(ms: seq<Msg>, slots: seq<Slot>, gs: seq<string>, offHost: bool)
    requires (forall k | 0 <= k < |ms| :: ms[k].head < |slots|) && Distinct(gs)
    requires forall j | 0 <= j < |slots| :: GroupOf(slots[j], offHost) in gs
    ensures SumMessages(ms, slots, gs, offHost) == |ms|
    decreases |ms|
  {
    if ms == [] {
      SumNone(slots, gs, offHost);
    } else {
      SumDropsOne(ms, slots, gs, offHost);
      SumIsLength(ms[1..], slots, gs, offHost);
    }
  }

  lemma {:induction false} SumNone(slots: seq<Slot>, gs: seq<string>, offHost: bool)
    ensures SumMessages([], slots, gs, offHost) == 0
  {
    if gs != [] { SumNone(slots, gs[1..], offHost); }
  }

  lemma {:induction false} SumsAgree(slots: seq<Slot>, fanout: nat, gs: seq<string>, offHost: bool)
    ensures var ms := Plan(slots, fanout, offHost, 0);
            && (forall k | 0 <= k < |ms| :: ms[k].head < |slots|)
            && SumMessages(ms, slots, gs, offHost) == SumCeil(slots, fanout, gs, offHost)
    decreases |gs|
  {
    if gs == [] {
      MessagesPerGroup(slots, slots, fanout, offHost, 0, "");
    } else {
      MessagesPerGroup(slots, slots, fanout, offHost, 0, gs[0]);
      SumsAgree(slots, fanout, gs[1..], offHost);
    }
  }

  /** The number of messages: the sum over the hosts, each once, of ceil(tasks / (fanout + 1)). */
  lemma MessagesOnHosts(slots: seq<Slot>, fanout: nat, hosts: seq<string>)
    requires Distinct(hosts) && forall j | 0 <= j < |slots| :: slots[j].host in hosts
    ensures |Plan(slots, fanout, false, 0)| == SumCeil(slots, fanout, hosts, false)
  {
    SumsAgree(slots, fanout, hosts, false);
    SumIsLength(Plan(slots, fanout, false, 0), slots, hosts, false);
  }

  /** With off-host fan-out, ceil(N / (fanout + 1)) messages for N waiting tasks. */
  lemma MessagesOffHost(slots: seq<Slot>, fanout: nat)
    requires forall j | 0 <= j < |slots| :: slots[j].port != 0
    ensures |Plan(slots, fanout, true, 0)| == CeilDiv(|slots|, fanout + 1)
  {
    SumsAgree(slots, fanout, [""], true);
    SumIsLength(Plan(slots, fanout, true, 0), slots, [""], true);
    AllWait(slots, 0);
    assert SumCeil(slots, fanout, [""], true) == CeilDiv(WaitingIn(slots, "", true, 0), fanout + 1) + SumCeil(slots, fanout, [], true);
  }

  lemma {:induction false} AllWait(slots: seq<Slot>, i: nat)
    requires i <= |slots| && forall j | 0 <= j < |slots| :: slots[j].port != 0
    ensures WaitingIn(slots, "", true, i) == |slots| - i
    decreases |slots| - i
  {
    if i < |slots| { AllWait(slots, i + 1); }
  }

  /** A barrier that fires hands over slots from which every task is reached exactly once. */
  lemma FiredReachesEveryTask(b: Barrier, r: Request, fanout: nat, offHost: bool, task: nat)
    requires Counted(b) && r.port != 0 && Arrive(b, r).fired
    ensures multiset(Reached(Plan(Arrive(b, r).slots, fanout, offHost, 0)))[task] == if task < r.size then 1 else 0
  {
    hide Plan, Reached;
    ArriveRefines(b, Gate(b.cnt, Listed(b.slots)), r);
    var slots := Arrive(b, r).slots;
    PlanPartitions(slots, fanout, offHost, 0, task);
    assert task in Filled(slots) <==> task in Tasks(r.size);
  }

  /** The head of the message and everyone in its host table are named by the address each one gave last. */
  ghost predicate LastAddresses(rs: seq<Request>, m: nat, n: nat, slots: seq<Slot>, msg: Msg) {
    && msg.head < |slots| && LastAddress(rs, m, n, msg.head, slots[msg.head])
    && |msg.hosts| == |msg.to|
    && forall x | 0 <= x < |msg.to| :: LastAddress(rs, m, n, msg.to[x], msg.hosts[x])
  }

  /** In every run, the messages of a barrier that fires go to the addresses of the last requests. */
  lemma FiredMessagesAddressed(rs: seq<Request>, m: nat, fanout: nat, offHost: bool, k: nat)
    requires m < |rs| && AllPorts(rs) && ArrivalAt(rs, m).fired
    requires k < |Plan(ArrivalAt(rs, m).slots, fanout, offHost, 0)|
    ensures var slots := ArrivalAt(rs, m).slots;
            LastAddresses(rs, m + 1, rs[m].size, slots, Plan(slots, fanout, offHost, 0)[k])
  {
    hide Plan, LastAddress, ArrivalAt;
    var slots := ArrivalAt(rs, m).slots;
    var msg := Plan(slots, fanout, offHost, 0)[k];
    PlanProper(slots, slots, fanout, offHost, 0);
    assert Proper(msg, slots, fanout, offHost);
    FiredSlots(rs, m);
    FiredAddresses(rs, m, msg.head);
    forall x | 0 <= x < |msg.to| ensures LastAddress(rs, m + 1, rs[m].size, msg.to[x], msg.hosts[x]) {
      FiredAddresses(rs, m, msg.to[x]);
    }
  }

  lemma FiredSlots(rs: seq<Request>, m: nat)
    requires m < |rs| && AllPorts(rs) && ArrivalAt(rs, m).fired
    ensures |ArrivalAt(rs, m).slots| == rs[m].size
  {
    hide TableAt;
  }

  // ---- The loops -----------------------------------------------------------

  /** The inner loop at j: `to` is what has been taken, the rest of Take is still to come. */
  ghost predicate Gathering(s: seq<Slot>, g: string, offHost: bool, i: nat, fanout: nat, j: nat, to: seq<nat>) {
    && i < j <= |s| && |to| <= fanout
    && (forall x | 0 <= x < |to| :: i < to[x] < j)
    && to + Take(s, g, offHost, j, fanout - |to|) == Take(s, g, offHost, i + 1, fanout)
  }

  lemma GatherStart(s: seq<Slot>, g: string, offHost: bool, i: nat, fanout: nat)
    requires i < |s|
    ensures Gathering(s, g, offHost, i, fanout, i + 1, []) && Clear(s, []) == s && Addresses(s, []) == []
  {
    assert [] + Take(s, g, offHost, i + 1, fanout) == Take(s, g, offHost, i + 1, fanout);
  }

  lemma GatherStep(s: seq<Slot>, g: string, offHost: bool, i: nat, fanout: nat, j: nat, to: seq<nat>)
    requires Gathering(s, g, offHost, i, fanout, j, to) && j < |s| && |to| < fanout
    ensures Gathering(s, g, offHost, i, fanout, j + 1, if Waits(s, j, g, offHost) then to + [j] else to)
  {
    var later := Take(s, g, offHost, j + 1, fanout - |to| - 1);
    assert to + ([j] + later) == to + [j] + later;
  }

  lemma GatherEnd(s: seq<Slot>, g: string, offHost: bool, i: nat, fanout: nat, j: nat, to: seq<nat>)
    requires Gathering(s, g, offHost, i, fanout, j, to) && (j == |s| || |to| == fanout)
    ensures to == Take(s, g, offHost, i + 1, fanout)
  {
    assert to + [] == to;
  }

  lemma GatherFrame(s: seq<Slot>, g: string, offHost: bool, i: nat, fanout: nat, j: nat, to: seq<nat>)
    requires Gathering(s, g, offHost, i, fanout, j, to)
    ensures Clear(s, to)[i] == s[i]
    ensures j < |s| ==>
              && Clear(s, to)[j] == s[j] && Clear(s, to)[j := s[j].(port := 0)] == Clear(s, to + [j])
              && Addresses(s, to) + [s[j]] == Addresses(s, to + [j])
  {
    assert i !in to && j !in to;
    assert forall k :: k in to + [j] <==> k in to || k == j;
  }

  /** The host table of one message; clears the ports it takes. */
  method Gather(a: array<Slot>, i: nat, fanout: nat, offHost: bool) returns (to: seq<nat>, hosts: seq<Slot>)
    requires i < a.Length && fanout > 0
    modifies a
    ensures to == Take(old(a[..]), GroupOf(old(a[i]), offHost), offHost, i + 1, fanout)
    ensures hosts == Addresses(old(a[..]), to)
    ensures a[..] == Clear(old(a[..]), to)
  {
    hide Take, Clear, Addresses, Gathering;
    ghost var s := a[..];
    ghost var g := GroupOf(a[i], offHost);
    to, hosts := [], [];
    var j := i + 1;
    GatherStart(s, g, offHost, i, fanout);
    while j < a.Length
      invariant i < j <= a.Length && |to| < fanout
      invariant Gathering(s, g, offHost, i, fanout, j, to)
      invariant hosts == Addresses(s, to)
      invariant a[..] == Clear(s, to)
    {
      GatherStep(s, g, offHost, i, fanout, j, to);
      GatherFrame(s, g, offHost, i, fanout, j, to);
      assert a[j] == a[..][j] == s[j] && a[i] == a[..][i] == s[i];
      if a[j].port != 0 && (offHost || a[i].host == a[j].host) {
        hosts, to := hosts + [a[j]], to + [j];
        a[j] := a[j].(port := 0);
        if |to| >= fanout {
          GatherEnd(s, g, offHost, i, fanout, j + 1, to);
          return;
        }
      }
      j := j + 1;
    }
    GatherEnd(s, g, offHost, i, fanout, j, to);
  }

  lemma MoreMessages(ms: seq<Msg>, m: Msg, later: seq<Msg>)
    ensures ms + ([m] + later) == ms + [m] + later
  {
  }

  /** The outer loop of _agent. */
  method PlanMessages(a: array<Slot>, fanout: nat, offHost: bool) returns (ms: seq<Msg>)
    requires fanout > 0
    modifies a
    ensures ms == Plan(old(a[..]), fanout, offHost, 0)
    ensures a[..] == After(old(a[..]), fanout, offHost, 0)
  {
    hide Take, Clear, Addresses, Plan, After;
    ms := [];
    var i := 0;
    assert [] + Plan(a[..], fanout, offHost, 0) == Plan(a[..], fanout, offHost, 0);
    while i < a.Length
      invariant 0 <= i <= a.Length
      invariant ms + Plan(a[..], fanout, offHost, i) == Plan(old(a[..]), fanout, offHost, 0)
      invariant After(a[..], fanout, offHost, i) == After(old(a[..]), fanout, offHost, 0)
    {
      PlanStep(a[..], fanout, offHost, i);
      if a[i].port != 0 {
        var to, hosts := Gather(a, i, fanout, offHost);
        MoreMessages(ms, Msg(i, to, hosts), Plan(a[..], fanout, offHost, i + 1));
        ms := ms + [Msg(i, to, hosts)];
      }
      i := i + 1;
    }
    PlanNone(a[..], fanout, offHost);
    assert ms + [] == ms;
  }
}
