/**
 The loop of `slurm_sprint_job_info` (src/api/job_info.c) that walks the core
 layout with a cursor, reads the CPUs of each node and groups the nodes; and its
 agreement with random access to the same layout.
 */
module JobPrint {
  import opened JobLayout
  import opened HostGroups

  /** How many of the first n nodes are visited from node i on: up to the first whose range ends beyond the last core. */
  function Visited(sizes: seq<nat>, n: nat, last: nat, i: nat): (v: nat)
    requires i <= n <= |sizes|
    ensures i <= v <= n && (i < n ==> i < v)
    decreases n - i
  {
    if i == n then n
    else if Offset(sizes, i + 1) <= last then Visited(sizes, n, last, i + 1)
    else i + 1
  }

  /** Node v-1 holds the last allocated core. */
  ghost predicate Covers(sizes: seq<nat>, last: nat, v: nat) {
    0 < v <= |sizes| && Offset(sizes, v - 1) <= last < Offset(sizes, v)
  }

  lemma {:induction false} VisitedCovers(sizes: seq<nat>, n: nat, last: nat, i: nat)
    requires i <= n <= |sizes| && Offset(sizes, i) <= last < Offset(sizes, n)
    ensures Covers(sizes, last, Visited(sizes, n, last, i))
    decreases n - i
  {
    if Offset(sizes, i + 1) <= last { VisitedCovers(sizes, n, last, i + 1); }
  }

  /** The CPU sets of the first v nodes. */
  function CpuSets(sizes: seq<nat>, core: seq<bool>, threads: seq<nat>, v: nat): (cs: seq<set<nat>>)
    requires v <= |sizes| && v <= |threads| && Offset(sizes, v) <= |core|
    ensures |cs| == v
  {
    if v == 0 then []
    else
      CpuSets(sizes, core, threads, v - 1) + [Cpus(core, Offset(sizes, v - 1), sizes[v - 1], threads[v - 1])]
  }

  lemma {:induction false} CpuSetsAt(sizes: seq<nat>, core: seq<bool>, threads: seq<nat>, v: nat, i: nat)
    requires i < v <= |sizes| && v <= |threads| && Offset(sizes, v) <= |core|
    ensures Offset(sizes, i) + sizes[i] <= |core|
    ensures CpuSets(sizes, core, threads, v)[i] == Cpus(core, Offset(sizes, i), sizes[i], threads[i])
    decreases v
  {
    hide Cpus;
    if i < v - 1 { CpuSetsAt(sizes, core, threads, v - 1, i); }
  }

  /** For every layout, the CPUs read for a node are the threads of the allocated cores of the sockets of its walked run. */
  lemma SocketsRead(layout: seq<Shape>, core: seq<bool>, threads: seq<nat>, v: nat, k: nat, r: nat, i: nat, cpu: nat)
    requires i < v <= |Sizes(Walked(layout))| && v <= |threads| && Offset(Sizes(Walked(layout)), v) <= |core|
    requires IsNode(Walked(layout), k, r, i)
    ensures cpu in CpuSets(Sizes(Walked(layout)), core, threads, v)[i]
            <==> OnSomeCore(core, Offset(Sizes(Walked(layout)), i), layout[k], threads[i], cpu)
  {
    hide Sizes, Cpus, Offset, CpuSets, NodesBefore;
    var w := Walked(layout);
    CpuSetsAt(Sizes(w), core, threads, v, i);
    NodeCpus(w, core, i, threads[i]);
    SameShape(core, Offset(Sizes(w), i), layout[k], w[k], threads[i], cpu);
  }

  lemma SameShape(core: seq<bool>, off: nat, a: Shape, b: Shape, threads: nat, cpu: nat)
    requires a.sockets == b.sockets && a.cores == b.cores
    ensures OnSomeCore(core, off, a, threads, cpu) <==> OnSomeCore(core, off, b, threads, cpu)
  {
    hide ThreadOf;
    assert forall s: nat, c: nat ::
        OnCore(core, off, a, threads, s, c, cpu) <==> OnCore(core, off, b, threads, s, c, cpu);
  }

  /** The cursor stands in run k with r of its nodes behind it. */
  ghost predicate AtNode(layout: seq<Shape>, k: nat, r: nat, i: nat) {
    k < |layout| && r <= layout[k].reps && i == NodesBefore(layout, k) + r
  }

  /**
   Advancing the cursor, which has taken a node of its run unless it is at the
   start: the test on the repeat count moves it as the walked layout says, and
   the node's size is that of the run it lands in.
   */
  lemma CursorStep(layout: seq<Shape>, k: nat, r: nat, i: nat)
    requires AtNode(Walked(layout), k, r, i) && i < |Sizes(Walked(layout))| && (k == 0 || r > 0)
    ensures var k', r' := if r >= layout[k].reps then k + 1 else k, if r >= layout[k].reps then 0 else r;
            && AtNode(Walked(layout), k', r' + 1, i + 1)
            && Sizes(Walked(layout))[i] == SizeOf(layout[k'])
  {
    hide Sizes;
    var w := Walked(layout);
    NodeCount(w);
    if r >= w[k].reps {
      if k + 1 < |w| { SizeAt(w, k + 1, 0); }
    } else {
      SizeAt(w, k, r);
    }
  }

  /**
   The core-bitmap and host-grouping loop of slurm_sprint_job_info over the first
   |threads| nodes.  The bitmap reaches to the end of the last node visited.
   */
  method PrintGroups(layout: seq<Shape>, core: seq<bool>, last: nat, threads: seq<nat>, m: Memory, gres: seq<string>)
    returns (groups: seq<Group>)
    requires layout != [] && |threads| <= |Sizes(Walked(layout))| && (m.PerNode? ==> |m.mem| >= |threads|)
    requires Offset(Sizes(Walked(layout)), Visited(Sizes(Walked(layout)), |threads|, last, 0)) <= |core|
    ensures var sizes := Sizes(Walked(layout));
            groups == Flush(VisitAll(CpuSets(sizes, core, threads, Visited(sizes, |threads|, last, 0)), m, gres))
  {
    hide Sizes, Offset, Cpus, VisitAll, NodesBefore, Visited, CpuSets, Flush, Visit;
    ghost var sizes := Sizes(Walked(layout));
    ghost var v := Visited(sizes, |threads|, last, 0);
    CursorStart(layout);
    var acc := NoGroups;
    var bitInx, sockInx, sockReps, i := 0, 0, 0, 0;
    VisitNone(sizes, core, threads, m, gres);
    while i < |threads|
      invariant 0 <= i <= |threads| && (sockInx == 0 || sockReps > 0)
      invariant AtNode(Walked(layout), sockInx, sockReps, i)
      invariant bitInx == Offset(sizes, i) <= |core|
      invariant Visited(sizes, |threads|, last, i) == v
      invariant acc == VisitAll(CpuSets(sizes, core, threads, i), m, gres)
    {
      CursorStep(layout, sockInx, sockReps, i);
      VisitedStep(sizes, |threads|, last, i, |core|);
      VisitNext(sizes, core, threads, i, m, gres);
      if sockReps >= layout[sockInx].reps { sockInx, sockReps := sockInx + 1, 0; }
      sockReps := sockReps + 1;
      var bitReps := layout[sockInx].sockets * layout[sockInx].cores;
      var cpus := CpuBitmap(core, bitInx, bitReps, threads[i]);
      bitInx := bitInx + bitReps;
      acc := Visit(acc, i, cpus, m, gres);
      i := i + 1;
      if bitInx > last { break; }
    }
    VisitedEnd(sizes, |threads|, last, i);
    groups := Flush(acc);
  }

  lemma CursorStart(layout: seq<Shape>)
    requires layout != []
    ensures AtNode(Walked(layout), 0, 0, 0) && Offset(Sizes(Walked(layout)), 0) == 0
  {
    hide Sizes;
  }

  /** A node that is visited lies inside the bitmap. */
  lemma VisitedStep(sizes: seq<nat>, n: nat, last: nat, i: nat, bits: nat)
    requires i < n <= |sizes| && Offset(sizes, Visited(sizes, n, last, i)) <= bits
    ensures Offset(sizes, i + 1) == Offset(sizes, i) + sizes[i] <= bits
    ensures Offset(sizes, i + 1) <= last ==> Visited(sizes, n, last, i) == Visited(sizes, n, last, i + 1)
    ensures Offset(sizes, i + 1) > last ==> Visited(sizes, n, last, i) == i + 1
  {
    OffsetMonotone(sizes, i + 1, Visited(sizes, n, last, i));
  }

  lemma VisitedEnd(sizes: seq<nat>, n: nat, last: nat, i: nat)
    requires i <= n <= |sizes|
    ensures i == n ==> Visited(sizes, n, last, i) == i
  {
  }

  lemma VisitNone(sizes: seq<nat>, core: seq<bool>, threads: seq<nat>, m: Memory, gres: seq<string>)
    ensures VisitAll(CpuSets(sizes, core, threads, 0), m, gres) == NoGroups
  {
  }

  lemma VisitNext(sizes: seq<nat>, core: seq<bool>, threads: seq<nat>, i: nat, m: Memory, gres: seq<string>)
    requires i < |sizes| && i < |threads| && Offset(sizes, i + 1) <= |core| && (m.PerNode? ==> i < |m.mem|)
    ensures VisitAll(CpuSets(sizes, core, threads, i + 1), m, gres)
         == Visit(VisitAll(CpuSets(sizes, core, threads, i), m, gres), i,
                  Cpus(core, Offset(sizes, i), sizes[i], threads[i]), m, gres)
  {
    hide Cpus, Visit;
    var cs := CpuSets(sizes, core, threads, i);
    assert CpuSets(sizes, core, threads, i + 1)[..i] == cs;
  }

  /** Every core bit up to the last one lies in the range of a visited node. */
  lemma NothingOmitted(sizes: seq<nat>, last: nat, v: nat, bit: nat)
    requires Covers(sizes, last, v) && bit <= last
    ensures exists i | 0 <= i < v :: Offset(sizes, i) <= bit < Offset(sizes, i + 1)
  {
    OffsetMonotone(sizes, v, |sizes|);
    var i := RangesTile(sizes, bit);
    if i >= v { OffsetMonotone(sizes, v, i); }
  }

  // ---- Agreement with random access ----------------------------------------

  /** The highest allocated core. */
  ghost predicate IsLast(core: seq<bool>, last: nat) {
    last < |core| && core[last] && forall j | last < j < |core| :: !core[j]
  }

  /** A job with this layout, as the loop gets it. */
  ghost predicate IsJob(layout: seq<Shape>, core: seq<bool>, last: nat, threads: seq<nat>) {
    |core| == Total(Sizes(layout)) && IsLast(core, last) && |threads| == |Sizes(layout)|
  }

  /** The cursor stays inside the bitmap and finds for every node it visits the CPUs that random access finds. */
  ghost predicate ReadsRight(layout: seq<Shape>, core: seq<bool>, last: nat, threads: seq<nat>) {
    var sizes, w := Sizes(layout), Sizes(Walked(layout));
    && |threads| == |sizes| <= |w|
    && var v := Visited(w, |sizes|, last, 0);
       && Offset(w, v) <= |core|
       && forall i | 0 <= i < v ::
            && Offset(sizes, i) + sizes[i] <= |core|
            && CpuSets(w, core, threads, v)[i] == Cpus(core, Offset(sizes, i), sizes[i], threads[i])
  }

  /** Both decoders then visit the same nodes, all of which match. */
  lemma {:induction false} VisitsAlike(layout: seq<Shape>, last: nat, i: nat)
    requires WalksRight(layout) && last < Total(Sizes(layout)) && i <= |Sizes(layout)|
    requires Offset(Sizes(layout), i) <= last && Offset(Sizes(Walked(layout)), i) == Offset(Sizes(layout), i)
    ensures var sizes, w := Sizes(layout), Sizes(Walked(layout));
            var v := Visited(sizes, |sizes|, last, i);
            && Visited(w, |sizes|, last, i) == v
            && Offset(w, v) == Offset(sizes, v) <= Total(sizes)
            && forall k | i <= k < v :: w[k] == sizes[k] && Offset(w, k) == Offset(sizes, k)
    decreases |Sizes(layout)| - i
  {
    hide Sizes, Offset, Visited;
    var sizes, w := Sizes(layout), Sizes(Walked(layout));
    assert i < |sizes|;
    VisitedTurn(sizes, |sizes|, last, i);
    VisitedTurn(w, |sizes|, last, i);
    OffsetMonotone(sizes, i + 1, |sizes|);
    if Offset(sizes, i + 1) <= last { VisitsAlike(layout, last, i + 1); }
  }

  lemma VisitedTurn(sizes: seq<nat>, n: nat, last: nat, i: nat)
    requires i < n <= |sizes|
    ensures Offset(sizes, i + 1) == Offset(sizes, i) + sizes[i]
    ensures Visited(sizes, n, last, i) == if Offset(sizes, i + 1) <= last then Visited(sizes, n, last, i + 1) else i + 1
  {
  }

  lemma OffsetZeros(layout: seq<Shape>)
    ensures Offset(Sizes(layout), 0) == 0 == Offset(Sizes(Walked(layout)), 0)
  {
    hide Sizes;
  }

  lemma RightReads(layout: seq<Shape>, core: seq<bool>, last: nat, threads: seq<nat>)
    requires WalksRight(layout) && |core| == Total(Sizes(layout)) && last < |core| && |threads| == |Sizes(layout)|
    ensures ReadsRight(layout, core, last, threads)
  {
    hide Sizes, Cpus, CpuSets, Visited, Offset;
    var sizes, w := Sizes(layout), Sizes(Walked(layout));
    OffsetZeros(layout);
    VisitsAlike(layout, last, 0);
    var v := Visited(w, |sizes|, last, 0);
    forall i | 0 <= i < v
      ensures Offset(sizes, i) + sizes[i] <= |core|
      ensures CpuSets(w, core, threads, v)[i] == Cpus(core, Offset(sizes, i), sizes[i], threads[i])
    {
      CpuSetsAt(w, core, threads, v, i);
    }
  }

  /** A node is visited if it starts no later than the last core. */
  lemma {:induction false} VisitsNode(sizes: seq<nat>, n: nat, last: nat, i: nat, k: nat)
    requires k <= i < n <= |sizes| && Offset(sizes, i) <= last
    ensures i < Visited(sizes, n, last, k)
    decreases i - k
  {
    if k < i {
      OffsetMonotone(sizes, k + 1, i);
      VisitsNode(sizes, n, last, i, k + 1);
    }
  }

  function OneBit(n: nat, bit: nat): (core: seq<bool>)
    ensures |core| == n && forall j | 0 <= j < n :: core[j] == (j == bit)
  {
    seq(n, j => j == bit)
  }

  /** With one core set and one thread each, the CPUs of a range tell whether it holds that core. */
  lemma OneBitCpus(n: nat, bit: nat, off: nat, size: nat)
    requires off + size <= n && off <= bit
    ensures bit - off in Cpus(OneBit(n, bit), off, size, 1) <==> bit < off + size
  {
    hide Cpus;
    var core, c := OneBit(n, bit), bit - off;
    CpusMembers(core, off, size, 1, c);
    if bit < off + size { assert ThreadOf(core, off, c, 1, c); }
  }

  /** The first node that does not match although there are cores left. */
  lemma FirstWrong(layout: seq<Shape>) returns (i: nat)
    requires !WalksRight(layout)
    ensures var sizes, w := Sizes(layout), Sizes(Walked(layout));
            && i < |sizes| <= |w| && Offset(w, i) == Offset(sizes, i) < Total(sizes) && w[i] != sizes[i]
  {
    hide Sizes;
    var sizes, w := Sizes(layout), Sizes(Walked(layout));
    WalkedLonger(layout);
    i := 0;
    while w[i] == sizes[i]
      invariant 0 <= i < |sizes| && Offset(w, i) == Offset(sizes, i) < Total(sizes)
      invariant forall k | 0 <= k < i :: w[k] == sizes[k]
      decreases |sizes| - i
    {
      var x :| 0 <= x < |sizes| && Offset(sizes, x) < Total(sizes) && w[x] != sizes[x];
      OffsetMonotone(sizes, i + 1, x);
      i := i + 1;
    }
  }

  /** A layout the cursor does not walk right has a job it misreads or for which it leaves the bitmap. */
  lemma WrongRead(layout: seq<Shape>) returns (core: seq<bool>, last: nat, threads: seq<nat>)
    requires !WalksRight(layout)
    ensures IsJob(layout, core, last, threads) && !ReadsRight(layout, core, last, threads)
  {
    hide Sizes, Cpus, CpuSets, Visited, WalksRight;
    var sizes, w := Sizes(layout), Sizes(Walked(layout));
    var i := FirstWrong(layout);
    var n, o, total := |sizes|, Offset(sizes, i), Total(sizes);
    OffsetMonotone(sizes, i + 1, n);
    last := if w[i] < sizes[i] then o + w[i] else if o + w[i] > total then total - 1 else o + sizes[i];
    core, threads := OneBit(total, last), seq(n, k => 1);
    VisitsNode(w, n, last, i, 0);
    var v := Visited(w, n, last, 0);
    OffsetMonotone(w, i + 1, v);
    if Offset(w, v) <= total {
      CpuSetsAt(w, core, threads, v, i);
      OneBitCpus(total, last, o, w[i]);
      OneBitCpus(total, last, o, sizes[i]);
    }
  }

  /**
   The two decoders agree on every job of a layout if and only if, as far as
   there are cores, the cursor gives each node its size.
   */
  lemma DecodersAgreeIff(layout: seq<Shape>)
    ensures (forall core, last, threads | IsJob(layout, core, last, threads) :: ReadsRight(layout, core, last, threads))
            <==> WalksRight(layout)
  {
    hide WalksRight, ReadsRight;
    if WalksRight(layout) {
      forall core, last, threads | IsJob(layout, core, last, threads) ensures ReadsRight(layout, core, last, threads) {
        RightReads(layout, core, last, threads);
      }
    } else {
      var core, last, threads := WrongRead(layout);
    }
  }

  /**
   A job with an empty run between two nodes: the cursor gives the second node one
   core instead of two, stays inside the bitmap, and leaves out an allocated core.
   */
  lemma EmptyRunMisleads()
    ensures var layout, core := [Shape(1, 2, 1), Shape(1, 1, 0), Shape(1, 2, 1)], [true, false, false, true];
            var sizes, w := Sizes(layout), Sizes(Walked(layout));
            && IsJob(layout, core, 3, [1, 1]) && |w| >= 2 && Visited(w, 2, 3, 0) == 2 && Offset(w, 2) <= |core|
            && CpuSets(w, core, [1, 1], 2)[1] == {} && Offset(sizes, 1) + sizes[1] <= |core|
            && 1 in Cpus(core, Offset(sizes, 1), sizes[1], 1)
  {
    var layout, core := [Shape(1, 2, 1), Shape(1, 1, 0), Shape(1, 2, 1)], [true, false, false, true];
    EmptyRunSizes();
    hide Sizes;
    var sizes, w := Sizes(layout), Sizes(Walked(layout));
    assert Offset(sizes, 0) == 0 && Offset(sizes, 1) == 2 && Offset(sizes, 2) == Offset(sizes, 1) + sizes[1];
    assert Offset(w, 0) == 0 && Offset(w, 1) == 2 && Offset(w, 2) == Offset(w, 1) + w[1];
    assert Visited(w, 2, 3, 1) == Visited(w, 2, 3, 2) == 2;
    CpuSetsAt(w, core, [1, 1], 2, 1);
    hide CpuSets;
    assert Cpus(core, 2, 0, 1) == {} && Cpus(core, 2, 1, 1) == {};
    CpusMembers(core, 2, 2, 1, 1);
    assert ThreadOf(core, 2, 1, 1, 1);
  }

  lemma EmptyRunSizes()
    ensures var layout := [Shape(1, 2, 1), Shape(1, 1, 0), Shape(1, 2, 1)];
            Sizes(layout) == [2, 2] && Sizes(Walked(layout)) == [2, 1, 2]
  {
    var layout := [Shape(1, 2, 1), Shape(1, 1, 0), Shape(1, 2, 1)];
    var w := Walked(layout);
    NodeCount(layout);
    NodeCount(w);
    assert NodesBefore(layout, 1) == 1 && NodesBefore(layout, 2) == 1 && NodesBefore(layout, 3) == 2;
    assert NodesBefore(w, 1) == 1 && NodesBefore(w, 2) == 2 && NodesBefore(w, 3) == 3;
    SizeAt(layout, 0, 0);
    SizeAt(layout, 2, 0);
    SizeAt(w, 0, 0);
    SizeAt(w, 1, 0);
    SizeAt(w, 2, 0);
  }

  /**
   The two decoders on one job of such a layout: for every node the cursor
   visits, its printed line has that node's number, memory, GRES if known, and
   the CPUs that random access finds for it.
   */
  method DecodersAgree(layout: seq<Shape>, core: seq<bool>, last: nat, threads: seq<nat>, m: Memory, gres: seq<string>,
                       i: nat) returns (groups: seq<Group>, cpus: set<nat>)
    requires WalksRight(layout) && IsJob(layout, core, last, threads) && (m.PerNode? ==> |m.mem| == |threads|)
    requires i < Visited(Sizes(layout), |threads|, last, 0)
    ensures var lines := ExpandGroups(groups);
            && |lines| == Visited(Sizes(layout), |threads|, last, 0)
            && lines[i].node == i && lines[i].cpus == cpus && lines[i].mem == (if m.PerNode? then m.mem[i] else 0)
            && (i < |gres| ==> lines[i].gres == gres[i])
  {
    hide Sizes, Offset, Cpus, Visited, CpuSets, ExpandGroups, Flush, VisitAll, WalksRight;
    ghost var w := Sizes(Walked(layout));
    RightReads(layout, core, last, threads);
    OffsetZeros(layout);
    VisitsAlike(layout, last, 0);
    NotEmpty(layout);
    groups := PrintGroups(layout, core, last, threads, m, gres);
    cpus := CpusOfNode(layout, core, i, threads[i]);
    PrintedLines(CpuSets(w, core, threads, Visited(w, |threads|, last, 0)), m, gres);
  }

  // ---- Every allocated core ------------------------------------------------

  lemma OneCore(j: nat, k: nat, t: nat, c: nat)
    requires j * t <= c < j * t + t && k * t <= c < k * t + t
    ensures j == k
  {
    Spaced(j, k, t);
    Spaced(k, j, t);
  }

  lemma Spaced(j: nat, k: nat, t: nat)
    ensures j < k ==> j * t + t <= k * t
  {
    if j < k { assert (j + 1) * t <= k * t; }
  }

  /** In the CPU set of a range, thread x of core j is set exactly when that core is. */
  lemma CoreInCpus(core: seq<bool>, off: nat, size: nat, threads: nat, j: nat, x: nat)
    requires off + size <= |core| && j < size && x < threads
    ensures j * threads + x in Cpus(core, off, size, threads) <==> core[off + j]
  {
    hide Cpus;
    var c := j * threads + x;
    CpusMembers(core, off, size, threads, c);
    if k :| 0 <= k < size && ThreadOf(core, off, k, threads, c) { OneCore(j, k, threads, c); }
    if core[off + j] { assert ThreadOf(core, off, j, threads, c); }
  }

  /** All threads of core j are among the CPUs. */
  ghost predicate HasCore(cpus: set<nat>, j: nat, threads: nat) { Threads(j * threads, threads) <= cpus }

  lemma CpusHaveCore(core: seq<bool>, off: nat, size: nat, threads: nat, j: nat)
    requires off + size <= |core| && j < size && core[off + j]
    ensures HasCore(Cpus(core, off, size, threads), j, threads)
  {
    hide Cpus, Threads;
    var base := j * threads;
    forall c | c in Threads(base, threads) ensures c in Cpus(core, off, size, threads) {
      ThreadsMembers(base, threads, c);
      CoreInCpus(core, off, size, threads, j, c - base);
    }
  }

  /** The lines printed for a job. */
  ghost function PrintedFor(layout: seq<Shape>, core: seq<bool>, last: nat, threads: seq<nat>, m: Memory,
                            gres: seq<string>): seq<Line>
    requires ReadsRight(layout, core, last, threads) && (m.PerNode? ==> |m.mem| >= |threads|)
  {
    var w := Sizes(Walked(layout));
    ExpandGroups(Flush(VisitAll(CpuSets(w, core, threads, Visited(w, |threads|, last, 0)), m, gres)))
  }

  /** Line i tells the CPUs that random access finds for node i. */
  lemma PrintedCpus(layout: seq<Shape>, core: seq<bool>, last: nat, threads: seq<nat>, m: Memory, gres: seq<string>, i: nat)
    requires ReadsRight(layout, core, last, threads) && (m.PerNode? ==> |m.mem| >= |threads|)
    ensures var lines := PrintedFor(layout, core, last, threads, m, gres);
            && |lines| == Visited(Sizes(Walked(layout)), |threads|, last, 0) <= |Sizes(layout)|
            && (i < |lines| ==>
                  && Offset(Sizes(layout), i) + Sizes(layout)[i] <= |core|
                  && lines[i].cpus == Cpus(core, Offset(Sizes(layout), i), Sizes(layout)[i], threads[i]))
  {
    hide Sizes, Cpus, CpuSets, Visited, Offset, ExpandGroups, Flush, VisitAll;
    var w := Sizes(Walked(layout));
    PrintedLines(CpuSets(w, core, threads, Visited(w, |threads|, last, 0)), m, gres);
  }

  /** Of every node printed, thread x of core j is among its CPUs exactly when that core is allocated. */
  lemma CoresPrinted(layout: seq<Shape>, core: seq<bool>, last: nat, threads: seq<nat>, m: Memory, gres: seq<string>,
                     i: nat, j: nat, x: nat)
    requires ReadsRight(layout, core, last, threads) && (m.PerNode? ==> |m.mem| >= |threads|)
    requires i < |PrintedFor(layout, core, last, threads, m, gres)|
    requires i < |Sizes(layout)| && j < Sizes(layout)[i] && x < threads[i]
    ensures Offset(Sizes(layout), i) + j < |core|
    ensures j * threads[i] + x in PrintedFor(layout, core, last, threads, m, gres)[i].cpus
            <==> core[Offset(Sizes(layout), i) + j]
  {
    hide Sizes, Cpus, Offset, PrintedFor, ReadsRight;
    ReadsThreads(layout, core, last, threads);
    PrintedCpus(layout, core, last, threads, m, gres, i);
    CoreInCpus(core, Offset(Sizes(layout), i), Sizes(layout)[i], threads[i], j, x);
  }

  /** The same in terms of the layout: the CPUs printed are the threads of the allocated cores of the node's sockets. */
  lemma SocketsPrinted(layout: seq<Shape>, core: seq<bool>, last: nat, threads: seq<nat>, m: Memory, gres: seq<string>,
                       k: nat, r: nat, i: nat, cpu: nat)
    requires ReadsRight(layout, core, last, threads) && (m.PerNode? ==> |m.mem| >= |threads|)
    requires i < |PrintedFor(layout, core, last, threads, m, gres)|
    requires i < |Sizes(layout)| && IsNode(layout, k, r, i)
    ensures cpu in PrintedFor(layout, core, last, threads, m, gres)[i].cpus
            <==> OnSomeCore(core, Offset(Sizes(layout), i), layout[k], threads[i], cpu)
  {
    hide Sizes, Cpus, Offset, PrintedFor, ReadsRight, OnSomeCore, NodesBefore;
    ReadsThreads(layout, core, last, threads);
    PrintedCpus(layout, core, last, threads, m, gres, i);
    NodeCpus(layout, core, i, threads[i]);
  }

  lemma ReadsThreads(layout: seq<Shape>, core: seq<bool>, last: nat, threads: seq<nat>)
    requires ReadsRight(layout, core, last, threads)
    ensures |threads| == |Sizes(layout)|
  {
  }

  /** Every allocated core belongs to a node that is printed, and all its threads are among that node's CPUs. */
  lemma EveryCorePrinted(layout: seq<Shape>, core: seq<bool>, last: nat, threads: seq<nat>, m: Memory, gres: seq<string>,
                         bit: nat) returns (i: nat, j: nat)
    requires WalksRight(layout) && IsJob(layout, core, last, threads) && (m.PerNode? ==> |m.mem| >= |threads|)
    requires bit < |core| && core[bit]
    ensures ReadsRight(layout, core, last, threads) && i < |PrintedFor(layout, core, last, threads, m, gres)|
    ensures i < |Sizes(layout)| && j < Sizes(layout)[i] && bit == Offset(Sizes(layout), i) + j
    ensures HasCore(PrintedFor(layout, core, last, threads, m, gres)[i].cpus, j, threads[i])
  {
    hide Sizes, Offset, Visited, PrintedFor, ReadsRight, WalksRight, HasCore, Cpus;
    RightReads(layout, core, last, threads);
    i, j := NodeVisited(layout, core, last, threads, bit);
    PrintedCpus(layout, core, last, threads, m, gres, i);
    CpusHaveCore(core, Offset(Sizes(layout), i), Sizes(layout)[i], threads[i], j);
  }

  /** The node of an allocated core is visited. */
  lemma NodeVisited(layout: seq<Shape>, core: seq<bool>, last: nat, threads: seq<nat>, bit: nat) returns (i: nat, j: nat)
    requires WalksRight(layout) && IsJob(layout, core, last, threads) && bit < |core| && core[bit]
    ensures |Sizes(layout)| <= |Sizes(Walked(layout))| && i < Visited(Sizes(Walked(layout)), |threads|, last, 0)
    ensures i < |Sizes(layout)| && j < Sizes(layout)[i] && bit == Offset(Sizes(layout), i) + j
  {
    hide Sizes, Visited;
    var sizes := Sizes(layout);
    OffsetZeros(layout);
    VisitsAlike(layout, last, 0);
    VisitedCovers(sizes, |sizes|, last, 0);
    var v := Visited(sizes, |sizes|, last, 0);
    NothingOmitted(sizes, last, v, bit);
    i :| 0 <= i < v && Offset(sizes, i) <= bit < Offset(sizes, i + 1);
    j := bit - Offset(sizes, i);
  }

  // ---- GRES ----------------------------------------------------------------

  /** Two like nodes with GRES detail for the first only: the second is printed with the first one's GRES. */
  method GresLeaks() returns (groups: seq<Group>)
    ensures ExpandGroups(groups) != Lines([{0}, {0}], NoMemory, ["g"])
    ensures IsJob([Shape(1, 1, 2)], [true, true], 1, [1, 1])
  {
    var layout, core := [Shape(1, 1, 2)], [true, true];
    TwoNodes();
    hide Sizes, CpuSets, Visited, VisitAll, Flush, ExpandGroups, Lines;
    groups := PrintGroups(layout, core, 1, [1, 1], NoMemory, ["g"]);
    GroupsLosslessIff([{0}, {0}], NoMemory, ["g"]);
  }

  lemma TwoNodes()
    ensures var layout, core := [Shape(1, 1, 2)], [true, true];
            && Sizes(layout) == [1, 1] == Sizes(Walked(layout)) && IsJob(layout, core, 1, [1, 1])
            && Visited([1, 1], 2, 1, 0) == 2 && Offset([1, 1], 2) == 2 && CpuSets([1, 1], core, [1, 1], 2) == [{0}, {0}]
  {
    var layout, core, sizes := [Shape(1, 1, 2)], [true, true], [1, 1];
    assert layout[1..] == [] && Walked(layout) == layout;
    assert Sizes(layout) == Repeat(1, 2) + [] == sizes;
    assert Offset(sizes, 1) == 1 && Offset(sizes, 2) == 2;
    assert Visited(sizes, 2, 1, 1) == 2;
    assert Threads(0, 1) == {0};
    assert Cpus(core, 0, 0, 1) == {} == Cpus(core, 1, 0, 1);
    assert Cpus(core, 0, 1, 1) == {0} == Cpus(core, 1, 1, 1);
    CpuSetsAt(sizes, core, [1, 1], 2, 0);
    CpuSetsAt(sizes, core, [1, 1], 2, 1);
  }

  lemma NotEmpty(layout: seq<Shape>)
    ensures |Sizes(layout)| > 0 ==> layout != []
  {
  }
}
