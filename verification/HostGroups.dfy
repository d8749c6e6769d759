/**
 Grouping of the nodes of a job by equal CPUs, memory and GRES
 (`slurm_sprint_job_info` in src/api/job_info.c).  The printed groups expand to
 the per-node values exactly when the GRES detail list does not end at a
 particular kind of boundary.
 */
module HostGroups {
  datatype Memory = NoMemory | PerNode(mem: seq<nat>)

  /** What is reported of one node. */
  datatype Line = Line(node: nat, cpus: set<nat>, mem: nat, gres: string)

  /** One printed line: a list of nodes and the values they share. */
  datatype Group = Group(nodes: seq<nat>, cpus: set<nat>, mem: nat, gres: string)

  function LinesOf(g: Group): (r: seq<Line>)
    ensures |r| == |g.nodes| && forall i | 0 <= i < |r| :: r[i] == Line(g.nodes[i], g.cpus, g.mem, g.gres)
  {
    seq(|g.nodes|, i requires 0 <= i < |g.nodes| => Line(g.nodes[i], g.cpus, g.mem, g.gres))
  }

  function ExpandGroups(gs: seq<Group>): seq<Line> {
    if gs == [] then [] else ExpandGroups(gs[..|gs| - 1]) + LinesOf(gs[|gs| - 1])
  }

  function MemOf(m: Memory, i: nat): nat
    requires m.PerNode? ==> i < |m.mem|
  {
    if m.PerNode? then m.mem[i] else 0
  }

  function GresOf(gres: seq<string>, i: nat): string { if i < |gres| then gres[i] else "" }

  /** The accumulator: the open group, whether a memory value has been recorded, and the printed groups. */
  datatype Acc = Acc(group: Group, memSet: bool, out: seq<Group>)

  const NoGroups := Acc(Group([], {}, 0, ""), false, [])

  predicate Differs(a: Acc, i: nat, cpus: set<nat>, m: Memory, gres: seq<string>)
    requires m.PerNode? ==> i < |m.mem|
  {
    || cpus != a.group.cpus
    || (i < |gres| && gres[i] != a.group.gres)
    || a.memSet != m.PerNode?
    || (m.PerNode? && a.group.mem != m.mem[i])
  }

  function Flush(a: Acc): seq<Group> { if a.group.nodes == [] then a.out else a.out + [a.group] }

  /** One node: join the open group, or print it and open the next. */
  function Visit(a: Acc, i: nat, cpus: set<nat>, m: Memory, gres: seq<string>): Acc
    requires m.PerNode? ==> i < |m.mem|
  {
    if Differs(a, i, cpus, m, gres) then
      Acc(Group([i], cpus, MemOf(m, i), GresOf(gres, i)), m.PerNode?, Flush(a))
    else a.(group := a.group.(nodes := a.group.nodes + [i]))
  }

  function VisitAll(cs: seq<set<nat>>, m: Memory, gres: seq<string>): Acc
    requires m.PerNode? ==> |cs| <= |m.mem|
  {
    if cs == [] then NoGroups else Visit(VisitAll(cs[..|cs| - 1], m, gres), |cs| - 1, cs[|cs| - 1], m, gres)
  }

  /** The per-node values the groups stand for. */
  function Lines(cs: seq<set<nat>>, m: Memory, gres: seq<string>): (r: seq<Line>)
    requires m.PerNode? ==> |cs| <= |m.mem|
    ensures |r| == |cs| && forall i | 0 <= i < |cs| :: r[i] == Line(i, cs[i], MemOf(m, i), GresOf(gres, i))
  {
    seq(|cs|, i requires 0 <= i < |cs| && (m.PerNode? ==> |cs| <= |m.mem|) => Line(i, cs[i], MemOf(m, i), GresOf(gres, i)))
  }

  lemma ExpandFlush(a: Acc)
    ensures ExpandGroups(Flush(a)) == ExpandGroups(a.out) + LinesOf(a.group)
  {
    if a.group.nodes != [] {
      assert (a.out + [a.group])[..|a.out|] == a.out;
    } else {
      assert ExpandGroups(a.out) + [] == ExpandGroups(a.out);
    }
  }

  /** A visit adds one line: right in everything, except that the GRES of an open group is taken over unchecked beyond the detail list. */
  lemma VisitAddsLine(a: Acc, i: nat, cpus: set<nat>, m: Memory, gres: seq<string>)
    requires m.PerNode? ==> i < |m.mem|
    requires !a.memSet ==> a.group.mem == 0
    ensures var r := Visit(a, i, cpus, m, gres);
            && (!r.memSet ==> r.group.mem == 0)
            && r.group.cpus == cpus && r.group.mem == MemOf(m, i) && r.memSet == m.PerNode? && r.group.nodes != []
            && (i < |gres| || Differs(a, i, cpus, m, gres) ==> r.group.gres == GresOf(gres, i))
            && (i >= |gres| && !Differs(a, i, cpus, m, gres) ==> r.group.gres == a.group.gres)
            && ExpandGroups(Flush(r)) == ExpandGroups(Flush(a)) + [Line(i, cpus, MemOf(m, i), r.group.gres)]
  {
    hide ExpandGroups;
    var r := Visit(a, i, cpus, m, gres);
    ExpandFlush(r);
    ExpandFlush(a);
    if Differs(a, i, cpus, m, gres) {
      assert LinesOf(r.group) == [Line(i, cpus, MemOf(m, i), r.group.gres)];
    } else {
      assert LinesOf(r.group) == LinesOf(a.group) + [Line(i, cpus, MemOf(m, i), r.group.gres)];
      assert ExpandGroups(a.out) + (LinesOf(a.group) + [Line(i, cpus, MemOf(m, i), r.group.gres)])
          == ExpandGroups(a.out) + LinesOf(a.group) + [Line(i, cpus, MemOf(m, i), r.group.gres)];
    }
  }

  /** GRES detail ends inside the visited nodes, just where two nodes agree on everything else and the first has GRES. */
  ghost predicate Blurred(cs: seq<set<nat>>, m: Memory, gres: seq<string>)
    requires m.PerNode? ==> |cs| <= |m.mem|
  {
    var c := |gres|;
    0 < c < |cs| && cs[c - 1] == cs[c] && MemOf(m, c - 1) == MemOf(m, c) && gres[c - 1] != ""
  }

  /** The open group after the nodes of cs describes the last of them, GRES apart. */
  ghost predicate Follows(a: Acc, cs: seq<set<nat>>, m: Memory)
    requires m.PerNode? ==> |cs| <= |m.mem|
  {
    && (!a.memSet ==> a.group.mem == 0)
    && (cs == [] ==> a == NoGroups)
    && (cs != [] ==> a.memSet == m.PerNode? && a.group.cpus == cs[|cs| - 1]
                     && a.group.mem == MemOf(m, |cs| - 1) && a.group.nodes != [])
    && |ExpandGroups(Flush(a))| == |cs|
  }

  lemma {:induction false} VisitAllFollows(cs: seq<set<nat>>, m: Memory, gres: seq<string>)
    requires m.PerNode? ==> |cs| <= |m.mem|
    ensures Follows(VisitAll(cs, m, gres), cs, m)
    decreases |cs|
  {
    if cs != [] {
      var n := |cs| - 1;
      VisitAllFollows(cs[..n], m, gres);
      VisitAddsLine(VisitAll(cs[..n], m, gres), n, cs[n], m, gres);
    }
  }

  lemma BlurredNext(cs: seq<set<nat>>, m: Memory, gres: seq<string>)
    requires m.PerNode? ==> |cs| <= |m.mem|
    requires cs != []
    ensures var n := |cs| - 1;
            Blurred(cs, m, gres) <==>
              || Blurred(cs[..n], m, gres)
              || (|gres| == n > 0 && cs[n - 1] == cs[n] && MemOf(m, n - 1) == MemOf(m, n) && gres[n - 1] != "")
  {
  }

  /**
   The printed groups expand to the per-node values if and only if the GRES
   detail does not end between two nodes that agree otherwise, the first having
   GRES.  In particular they do with detail for no node or for every node.
   */
  lemma {:induction false} GroupsLosslessIff(cs: seq<set<nat>>, m: Memory, gres: seq<string>)
    requires m.PerNode? ==> |cs| <= |m.mem|
    ensures var a := VisitAll(cs, m, gres);
            && (ExpandGroups(Flush(a)) == Lines(cs, m, gres) <==> !Blurred(cs, m, gres))
            && (!Blurred(cs, m, gres) ==> a.group.gres == if cs == [] then "" else GresOf(gres, |cs| - 1))
    decreases |cs|
  {
    if cs == [] {
      assert Lines(cs, m, gres) == [];
    } else {
      var n := |cs| - 1;
      var p := cs[..n];
      VisitAllFollows(p, m, gres);
      GroupsLosslessIff(p, m, gres);
      LosslessStep(cs, m, gres);
    }
  }

  lemma LosslessStep(cs: seq<set<nat>>, m: Memory, gres: seq<string>)
    requires m.PerNode? ==> |cs| <= |m.mem|
    requires cs != []
    requires var p := cs[..|cs| - 1];
             var a := VisitAll(p, m, gres);
             && Follows(a, p, m)
             && (ExpandGroups(Flush(a)) == Lines(p, m, gres) <==> !Blurred(p, m, gres))
             && (!Blurred(p, m, gres) ==> a.group.gres == if p == [] then "" else GresOf(gres, |p| - 1))
    ensures var a := VisitAll(cs, m, gres);
            && (ExpandGroups(Flush(a)) == Lines(cs, m, gres) <==> !Blurred(cs, m, gres))
            && (!Blurred(cs, m, gres) ==> a.group.gres == GresOf(gres, |cs| - 1))
  {
    var n := |cs| - 1;
    var p := cs[..n];
    var a := VisitAll(p, m, gres);
    var r := VisitAll(cs, m, gres);
    VisitAddsLine(a, n, cs[n], m, gres);
    BlurredNext(cs, m, gres);
    if !Blurred(p, m, gres) { GresStep(a, cs, m, gres); }
    LinesNext(cs, m, gres);
    hide *;
    AppendSame(ExpandGroups(Flush(a)), Lines(p, m, gres),
               Line(n, cs[n], MemOf(m, n), r.group.gres), Line(n, cs[n], MemOf(m, n), GresOf(gres, n)));
  }

  lemma LinesNext(cs: seq<set<nat>>, m: Memory, gres: seq<string>)
    requires m.PerNode? ==> |cs| <= |m.mem|
    requires cs != []
    ensures var n := |cs| - 1;
            Lines(cs, m, gres) == Lines(cs[..n], m, gres) + [Line(n, cs[n], MemOf(m, n), GresOf(gres, n))]
  {
  }

  /** The GRES reported for one more node is right unless the detail list ends just before it and nothing else differs. */
  lemma GresStep(a: Acc, cs: seq<set<nat>>, m: Memory, gres: seq<string>)
    requires m.PerNode? ==> |cs| <= |m.mem|
    requires cs != [] && Follows(a, cs[..|cs| - 1], m)
    requires a.group.gres == if |cs| == 1 then "" else GresOf(gres, |cs| - 2)
    ensures var n := |cs| - 1;
            Visit(a, n, cs[n], m, gres).group.gres == GresOf(gres, n) <==>
              !(|gres| == n > 0 && cs[n - 1] == cs[n] && MemOf(m, n - 1) == MemOf(m, n) && gres[n - 1] != "")
  {
    hide ExpandGroups;
    var n := |cs| - 1;
    if n > 0 { assert cs[..n][n - 1] == cs[n - 1]; }
  }

  lemma AppendSame(x: seq<Line>, y: seq<Line>, a: Line, b: Line)
    requires |x| == |y|
    ensures x + [a] == y + [b] <==> x == y && a == b
  {
    if x + [a] == y + [b] {
      assert x == (x + [a])[..|x|] && y == (y + [b])[..|y|];
      assert (x + [a])[|x|] == a && (y + [b])[|y|] == b;
    }
  }

  /** Line i tells node, CPUs and memory of node i, and its GRES if there is detail for it. */
  ghost predicate LinesRight(lines: seq<Line>, cs: seq<set<nat>>, m: Memory, gres: seq<string>)
    requires m.PerNode? ==> |cs| <= |m.mem|
  {
    && |lines| == |cs|
    && forall i | 0 <= i < |cs| ::
         && lines[i].node == i && lines[i].cpus == cs[i]
         && lines[i].mem == (if m.PerNode? then m.mem[i] else 0)
         && (i < |gres| ==> lines[i].gres == gres[i])
  }

  lemma LinesRightNext(lines: seq<Line>, cs: seq<set<nat>>, m: Memory, gres: seq<string>, g: string)
    requires cs != [] && (m.PerNode? ==> |cs| <= |m.mem|) && LinesRight(lines, cs[..|cs| - 1], m, gres)
    requires |cs| <= |gres| ==> g == gres[|cs| - 1]
    ensures var n := |cs| - 1; LinesRight(lines + [Line(n, cs[n], MemOf(m, n), g)], cs, m, gres)
  {
    var n := |cs| - 1;
    assert forall i | 0 <= i < n :: cs[..n][i] == cs[i];
  }

  /** With GRES or without, the printed lines are right in node, CPUs and memory, and in GRES where there is detail. */
  lemma {:induction false} PrintedLines(cs: seq<set<nat>>, m: Memory, gres: seq<string>)
    requires m.PerNode? ==> |cs| <= |m.mem|
    ensures LinesRight(ExpandGroups(Flush(VisitAll(cs, m, gres))), cs, m, gres)
    decreases |cs|
  {
    if cs != [] {
      hide ExpandGroups, Visit, Flush, LinesRight;
      var n := |cs| - 1;
      var a := VisitAll(cs[..n], m, gres);
      PrintedLines(cs[..n], m, gres);
      VisitAllFollows(cs[..n], m, gres);
      VisitAddsLine(a, n, cs[n], m, gres);
      LinesRightNext(ExpandGroups(Flush(a)), cs, m, gres, Visit(a, n, cs[n], m, gres).group.gres);
    }
  }

  /** Neighbouring groups differ: none could have been merged with the next. */
  ghost predicate Maximal(gs: seq<Group>) {
    && (forall i | 0 <= i < |gs| :: gs[i].nodes != [])
    && (forall i | 0 < i < |gs| :: gs[i].cpus != gs[i - 1].cpus || gs[i].mem != gs[i - 1].mem || gs[i].gres != gs[i - 1].gres)
  }

  lemma {:induction false} GroupsMaximal(cs: seq<set<nat>>, m: Memory, gres: seq<string>)
    requires m.PerNode? ==> |cs| <= |m.mem|
    ensures Maximal(Flush(VisitAll(cs, m, gres)))
    decreases |cs|
  {
    if cs != [] {
      var n := |cs| - 1;
      GroupsMaximal(cs[..n], m, gres);
      VisitAllFollows(cs[..n], m, gres);
      var a := VisitAll(cs[..n], m, gres);
      var r := Visit(a, n, cs[n], m, gres);
      VisitMaximal(a, n, cs[n], m, gres);
    }
  }

  lemma VisitMaximal(a: Acc, i: nat, cpus: set<nat>, m: Memory, gres: seq<string>)
    requires m.PerNode? ==> i < |m.mem|
    requires Maximal(Flush(a)) && (a.group.nodes != [] ==> a.memSet == m.PerNode?) && (a.group.nodes == [] ==> a.out == [])
    ensures Maximal(Flush(Visit(a, i, cpus, m, gres)))
  {
    var r := Visit(a, i, cpus, m, gres);
    var gs := Flush(r);
    if Differs(a, i, cpus, m, gres) {
      assert gs == Flush(a) + [r.group];
    } else if a.group.nodes != [] {
      assert Flush(a) == a.out + [a.group] && gs == a.out + [r.group];
      assert forall k | 0 <= k < |a.out| :: gs[k] == Flush(a)[k];
      forall k | 0 < k < |gs|
        ensures gs[k].cpus != gs[k - 1].cpus || gs[k].mem != gs[k - 1].mem || gs[k].gres != gs[k - 1].gres
      {
        assert Flush(a)[k].cpus == gs[k].cpus && Flush(a)[k - 1].cpus == gs[k - 1].cpus;
      }
    }
  }
}
