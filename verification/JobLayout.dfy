/**
 Core layout of a job's nodes (src/api/job_info.c).  The layout is run-length
 encoded; `slurm_sprint_job_info` walks it with a cursor and
 `slurm_job_cpus_allocated_str_on_node_id` jumps into it.  Both are proved to
 read the same expanded layout.
 */
module JobLayout {

  /** One run: `reps` consecutive nodes of `sockets` times `cores` cores. */
  datatype Shape = Shape(sockets: nat, cores: nat, reps: nat)

  function SizeOf(s: Shape): nat { s.sockets * s.cores }

  function Repeat<T>(x: T, n: nat): (r: seq<T>)
    ensures |r| == n && forall i | 0 <= i < n :: r[i] == x
  {
    seq(n, i => x)
  }

  /** Cores per node, node by node. */
  function Sizes(layout: seq<Shape>): seq<nat> {
    if layout == [] then [] else Repeat(SizeOf(layout[0]), layout[0].reps) + Sizes(layout[1..])
  }

  /** First core bit of node i. */
  function Offset(sizes: seq<nat>, i: nat): nat
    requires i <= |sizes|
  {
    if i == 0 then 0 else Offset(sizes, i - 1) + sizes[i - 1]
  }

  function Total(sizes: seq<nat>): nat { Offset(sizes, |sizes|) }

  /** Nodes in the first k runs. */
  function NodesBefore(layout: seq<Shape>, k: nat): nat
    requires k <= |layout|
  {
    if k == 0 then 0 else NodesBefore(layout, k - 1) + layout[k - 1].reps
  }

  // ---- Facts about the expansion -------------------------------------------

  lemma {:induction false} OffsetMonotone(sizes: seq<nat>, i: nat, j: nat)
    requires i <= j <= |sizes|
    ensures Offset(sizes, i) <= Offset(sizes, j)
  {
    if i < j { OffsetMonotone(sizes, i, j - 1); }
  }

  /** The node ranges tile the core bitmap: every bit lies in exactly one of them. */
  lemma {:induction false} RangesTile(sizes: seq<nat>, bit: nat) returns (i: nat)
    requires bit < Total(sizes)
    ensures i < |sizes| && Offset(sizes, i) <= bit < Offset(sizes, i + 1)
    ensures forall j | 0 <= j < |sizes| && Offset(sizes, j) <= bit < Offset(sizes, j + 1) :: j == i
  {
    i := |sizes| - 1;
    while bit < Offset(sizes, i)
      invariant 0 <= i < |sizes| && bit < Offset(sizes, i + 1)
      decreases i
    {
      i := i - 1;
    }
    forall j | 0 <= j < |sizes| && Offset(sizes, j) <= bit < Offset(sizes, j + 1) ensures j == i {
      if j < i { OffsetMonotone(sizes, j + 1, i); }
      if i < j { OffsetMonotone(sizes, i + 1, j); }
    }
  }

  lemma {:induction false} NodesBeforeMonotone(layout: seq<Shape>, k: nat, m: nat)
    requires k <= m <= |layout|
    ensures NodesBefore(layout, k) <= NodesBefore(layout, m)
  {
    if k < m { NodesBeforeMonotone(layout, k, m - 1); }
  }

  lemma {:induction false} NodesBeforeTail(layout: seq<Shape>, k: nat)
    requires 0 < k <= |layout|
    ensures NodesBefore(layout, k) == layout[0].reps + NodesBefore(layout[1..], k - 1)
  {
    if k > 1 { NodesBeforeTail(layout, k - 1); }
  }

  /** Node r of run k has that run's size. */
  lemma {:induction false} SizeAt(layout: seq<Shape>, k: nat, r: nat)
    requires k < |layout| && r < layout[k].reps
    ensures NodesBefore(layout, k) + r < |Sizes(layout)|
    ensures Sizes(layout)[NodesBefore(layout, k) + r] == SizeOf(layout[k])
    decreases k
  {
    if k > 0 {
      NodesBeforeTail(layout, k);
      SizeAt(layout[1..], k - 1, r);
    }
  }

  lemma {:induction false} NodeCount(layout: seq<Shape>)
    ensures |Sizes(layout)| == NodesBefore(layout, |layout|)
  {
    if layout != [] {
      NodeCount(layout[1..]);
      NodesBeforeTail(layout, |layout|);
    }
  }

  /** Within a run the offset grows linearly. */
  lemma {:induction false} OffsetInRun(layout: seq<Shape>, k: nat, r: nat)
    requires k < |layout| && r <= layout[k].reps
    ensures NodesBefore(layout, k) + r <= |Sizes(layout)|
    ensures Offset(Sizes(layout), NodesBefore(layout, k) + r)
         == Offset(Sizes(layout), Start(layout, k)) + SizeOf(layout[k]) * r
    decreases r
  {
    StartInRange(layout, k);
    if r > 0 {
      OffsetInRun(layout, k, r - 1);
      SizeAt(layout, k, r - 1);
      assert SizeOf(layout[k]) * r == SizeOf(layout[k]) * (r - 1) + SizeOf(layout[k]);
    }
  }

  /** The first node of run k, as an index into the expansion. */
  function Start(layout: seq<Shape>, k: nat): (i: nat)
    requires k <= |layout|
    ensures i == NodesBefore(layout, k) && i <= |Sizes(layout)|
  {
    StartInRange(layout, k);
    NodesBefore(layout, k)
  }

  lemma StartInRange(layout: seq<Shape>, k: nat)
    requires k <= |layout|
    ensures NodesBefore(layout, k) <= |Sizes(layout)|
  {
    NodeCount(layout);
    NodesBeforeMonotone(layout, k, |layout|);
  }

  // ---- Sockets and cores ---------------------------------------------------

  /** Core c of socket s, counted through the node. */
  function CoreIndex(shape: Shape, s: nat, c: nat): nat { s * shape.cores + c }

  /** The node has a core c on a socket s, and j is its index. */
  ghost predicate IsCore(shape: Shape, s: nat, c: nat, j: nat) {
    s < shape.sockets && c < shape.cores && j == CoreIndex(shape, s, c)
  }

  ghost predicate SomeCore(shape: Shape, j: nat) { exists s: nat, c: nat :: IsCore(shape, s, c, j) }

  /** The indices below the size are the cores of the sockets, each once. */
  lemma CoresOfSize(shape: Shape, j: nat)
    ensures j < SizeOf(shape) <==> SomeCore(shape, j)
  {
    if j < SizeOf(shape) {
      var c := shape.cores;
      SplitIndex(j, shape.sockets, c);
      assert IsCore(shape, j / c, j % c, j);
    }
    if SomeCore(shape, j) {
      var s: nat, c: nat :| IsCore(shape, s, c, j);
      JoinIndex(s, c, shape.sockets, shape.cores);
    }
  }

  lemma SplitIndex(j: nat, sockets: nat, cores: nat)
    requires j < sockets * cores
    ensures cores > 0 && 0 <= j / cores < sockets && j == j / cores * cores + j % cores
  {
    assert cores == 0 ==> sockets * cores == 0;
    var s := j / cores;
    assert j == s * cores + j % cores;
    assert s >= sockets ==> s * cores >= sockets * cores;
  }

  lemma JoinIndex(s: nat, c: nat, sockets: nat, cores: nat)
    requires s < sockets && c < cores
    ensures s * cores + c < sockets * cores
  {
    assert (s + 1) * cores <= sockets * cores;
  }

  lemma OneCore(shape: Shape, s: nat, c: nat, s': nat, c': nat, j: nat)
    requires IsCore(shape, s, c, j) && IsCore(shape, s', c', j)
    ensures s == s' && c == c'
  {
    if s < s' { JoinIndex(s, c, s', shape.cores); }
    if s' < s { JoinIndex(s', c', s, shape.cores); }
  }

  /** Node r of run k is node i of the job. */
  ghost predicate IsNode(layout: seq<Shape>, k: nat, r: nat, i: nat) {
    k < |layout| && r < layout[k].reps && i == NodesBefore(layout, k) + r
  }

  /** A node has as many core bits as its sockets have cores. */
  lemma NodeCores(layout: seq<Shape>, i: nat)
    requires i < |Sizes(layout)|
    ensures forall k: nat, r: nat, j: nat | IsNode(layout, k, r, i) :: j < Sizes(layout)[i] <==> SomeCore(layout[k], j)
  {
    hide Sizes, SomeCore, SizeOf, NodesBefore;
    forall k: nat, r: nat, j: nat | IsNode(layout, k, r, i)
      ensures j < Sizes(layout)[i] <==> SomeCore(layout[k], j)
    {
      SizeAt(layout, k, r);
      CoresOfSize(layout[k], j);
    }
  }

  /** The core bits of node r of run k are one for each core of each socket, in that order. */
  lemma NodeBits(layout: seq<Shape>, k: nat, r: nat, i: nat, bit: nat)
    requires IsNode(layout, k, r, i) && i < |Sizes(layout)|
    ensures var first := Offset(Sizes(layout), i);
            first <= bit < Offset(Sizes(layout), i + 1) <==> first <= bit && SomeCore(layout[k], bit - first)
  {
    hide Sizes, SomeCore, IsNode;
    NodeCores(layout, i);
  }

  // ---- Random access -------------------------------------------------------

  /** The search of slurm_job_cpus_allocated_str_on_node_id: first core bit and number of cores of a node. */
  method FirstBit(layout: seq<Shape>, nodeId: nat) returns (bitInx: nat, bitReps: nat)
    requires nodeId < |Sizes(layout)|
    ensures bitInx == Offset(Sizes(layout), nodeId) && bitReps == Sizes(layout)[nodeId]
    ensures forall k: nat, r: nat, j: nat | IsNode(layout, k, r, nodeId) :: j < bitReps <==> SomeCore(layout[k], j)
  {
    hide Sizes, Offset, SomeCore, IsNode;
    NodeCores(layout, nodeId);
    NodeCount(layout);
    bitInx := 0;
    var hi, inx := nodeId + 1, 0;
    OffsetZero(Sizes(layout));
    while true
      invariant 0 <= inx < |layout| && hi > 0 && nodeId + 1 == NodesBefore(layout, inx) + hi
      invariant bitInx == Offset(Sizes(layout), Start(layout, inx))
      decreases |layout| - inx
    {
      var s := layout[inx];
      if hi > s.reps {
        OffsetInRun(layout, inx, s.reps);
        bitInx := bitInx + s.sockets * s.cores * s.reps;
        hi := hi - s.reps;
        assert NodesBefore(layout, inx + 1) < NodesBefore(layout, |layout|);
        inx := inx + 1;
      } else {
        OffsetInRun(layout, inx, hi - 1);
        SizeAt(layout, inx, hi - 1);
        bitInx := bitInx + s.sockets * s.cores * (hi - 1);
        bitReps := s.sockets * s.cores;
        break;
      }
    }
  }

  lemma OffsetZero(sizes: seq<nat>)
    ensures Offset(sizes, 0) == 0
  {
  }

  /** slurm_job_cpus_allocated_on_node_id: a run-length lookup; 0 beyond the last node. */
  method CpusOnNode(values: seq<nat>, reps: seq<nat>, nodeId: nat) returns (cpus: nat)
    requires |values| == |reps|
    ensures var all := Expand(values, reps);
            cpus == if nodeId < |all| then all[nodeId] else 0
  {
    var start := -1;
    var i := 0;
    assert values[0..] == values && reps[0..] == reps;
    while i < |reps|
      invariant 0 <= i <= |reps| && start < nodeId
      invariant start + 1 + |Expand(values[i..], reps[i..])| == |Expand(values, reps)|
      invariant nodeId < |Expand(values, reps)| ==>
                  Expand(values, reps)[nodeId] == Expand(values[i..], reps[i..])[nodeId - (start + 1)]
    {
      assert values[i..][1..] == values[i + 1..] && reps[i..][1..] == reps[i + 1..];
      start := start + reps[i];
      if start >= nodeId { return values[i]; }
      i := i + 1;
    }
    cpus := 0;
  }

  function Expand(values: seq<nat>, reps: seq<nat>): seq<nat>
    requires |values| == |reps|
  {
    if values == [] then [] else Repeat(values[0], reps[0]) + Expand(values[1..], reps[1..])
  }

  /** Nodes that the first k counts stand for. */
  function CountBefore(reps: seq<nat>, k: nat): nat
    requires k <= |reps|
  {
    if k == 0 then 0 else CountBefore(reps, k - 1) + reps[k - 1]
  }

  lemma {:induction false} CountBeforeTail(reps: seq<nat>, k: nat)
    requires 0 < k <= |reps|
    ensures CountBefore(reps, k) == reps[0] + CountBefore(reps[1..], k - 1)
  {
    if k > 1 { CountBeforeTail(reps, k - 1); }
  }

  /** The expanded list: value k stands at the sum of the counts before it, and as often as its own count. */
  lemma {:induction false} ExpandAt(values: seq<nat>, reps: seq<nat>, k: nat, r: nat)
    requires |values| == |reps| && k < |reps| && r < reps[k]
    ensures CountBefore(reps, k) + r < |Expand(values, reps)| == CountBefore(reps, |reps|)
    ensures Expand(values, reps)[CountBefore(reps, k) + r] == values[k]
    decreases k
  {
    ExpandSize(values, reps);
    if k > 0 {
      CountBeforeTail(reps, k);
      ExpandAt(values[1..], reps[1..], k - 1, r);
    }
  }

  lemma {:induction false} ExpandSize(values: seq<nat>, reps: seq<nat>)
    requires |values| == |reps|
    ensures |Expand(values, reps)| == CountBefore(reps, |reps|)
  {
    if reps != [] {
      ExpandSize(values[1..], reps[1..]);
      CountBeforeTail(reps, |reps|);
    }
  }

  // ---- CPUs of one node ----------------------------------------------------

  /** n consecutive CPU ids. */
  function Threads(base: nat, n: nat): set<nat> {
    if n == 0 then {} else Threads(base, n - 1) + {base + n - 1}
  }

  /** The CPU ids of a node: every thread of every allocated core. */
  function Cpus(core: seq<bool>, off: nat, size: nat, threads: nat): set<nat>
    requires off + size <= |core|
  {
    if size == 0 then {}
    else Cpus(core, off, size - 1, threads) + if core[off + size - 1] then Threads((size - 1) * threads, threads) else {}
  }

  /** Core j of the node is allocated and c is one of its threads. */
  ghost predicate ThreadOf(core: seq<bool>, off: nat, j: nat, threads: nat, c: nat)
    requires off + j < |core|
  {
    core[off + j] && j * threads <= c < j * threads + threads
  }

  lemma {:induction false} ThreadsMembers(base: nat, n: nat, c: nat)
    ensures c in Threads(base, n) <==> base <= c < base + n
  {
    if n > 0 { ThreadsMembers(base, n - 1, c); }
  }

  lemma {:induction false} CpusMembers(core: seq<bool>, off: nat, size: nat, threads: nat, c: nat)
    requires off + size <= |core|
    ensures c in Cpus(core, off, size, threads) <==> exists j | 0 <= j < size :: ThreadOf(core, off, j, threads, c)
  {
    if size > 0 {
      CpusMembers(core, off, size - 1, threads, c);
      ThreadsMembers((size - 1) * threads, threads, c);
      assert c in Cpus(core, off, size, threads) <==>
             c in Cpus(core, off, size - 1, threads) || ThreadOf(core, off, size - 1, threads, c);
    }
  }

  /** The nested bit-setting loops shared by both decoders. */
  method CpuBitmap(core: seq<bool>, off: nat, size: nat, threads: nat) returns (cpus: set<nat>)
    requires off + size <= |core|
    ensures cpus == Cpus(core, off, size, threads)
  {
    cpus := {};
    var j := 0;
    while j < size
      invariant 0 <= j <= size && cpus == Cpus(core, off, j, threads)
    {
      if core[off + j] {
        var k := 0;
        while k < threads
          invariant 0 <= k <= threads
          invariant cpus == Cpus(core, off, j, threads) + Threads(j * threads, k)
        {
          cpus := cpus + {j * threads + k};
          k := k + 1;
        }
      }
      j := j + 1;
    }
  }

  /** Core c of socket s of the node is allocated, and cpu is one of its threads. */
  ghost predicate OnCore(core: seq<bool>, off: nat, shape: Shape, threads: nat, s: nat, c: nat, cpu: nat) {
    && s < shape.sockets && c < shape.cores && off + CoreIndex(shape, s, c) < |core|
    && ThreadOf(core, off, CoreIndex(shape, s, c), threads, cpu)
  }

  ghost predicate OnSomeCore(core: seq<bool>, off: nat, shape: Shape, threads: nat, cpu: nat) {
    exists s: nat, c: nat :: OnCore(core, off, shape, threads, s, c, cpu)
  }

  /** The CPUs of a range that has the size of a node: every thread of every allocated core of every socket. */
  lemma ShapeCpus(core: seq<bool>, off: nat, shape: Shape, size: nat, threads: nat, cpu: nat)
    requires off + size <= |core| && forall j: nat :: j < size <==> SomeCore(shape, j)
    ensures cpu in Cpus(core, off, size, threads) <==> OnSomeCore(core, off, shape, threads, cpu)
  {
    hide Cpus, CoreIndex, ThreadOf;
    CpusMembers(core, off, size, threads, cpu);
    if cpu in Cpus(core, off, size, threads) {
      var j :| 0 <= j < size && ThreadOf(core, off, j, threads, cpu);
      assert SomeCore(shape, j);
      var s: nat, c: nat :| IsCore(shape, s, c, j);
      assert OnCore(core, off, shape, threads, s, c, cpu);
    }
    if OnSomeCore(core, off, shape, threads, cpu) {
      var s: nat, c: nat :| OnCore(core, off, shape, threads, s, c, cpu);
      var j := CoreIndex(shape, s, c);
      assert IsCore(shape, s, c, j) && SomeCore(shape, j);
      assert ThreadOf(core, off, j, threads, cpu);
    }
  }

  /** The CPUs of node i: every thread of every allocated core of every socket. */
  lemma NodeCpus(layout: seq<Shape>, core: seq<bool>, i: nat, threads: nat)
    requires i < |Sizes(layout)| && Offset(Sizes(layout), i) + Sizes(layout)[i] <= |core|
    ensures var off := Offset(Sizes(layout), i);
            forall k: nat, r: nat, cpu: nat | IsNode(layout, k, r, i) ::
              cpu in Cpus(core, off, Sizes(layout)[i], threads) <==> OnSomeCore(core, off, layout[k], threads, cpu)
  {
    hide Sizes, Offset, Cpus, NodesBefore, SomeCore, OnSomeCore;
    NodeCores(layout, i);
    var off, size := Offset(Sizes(layout), i), Sizes(layout)[i];
    forall k: nat, r: nat, cpu: nat | IsNode(layout, k, r, i)
      ensures cpu in Cpus(core, off, size, threads) <==> OnSomeCore(core, off, layout[k], threads, cpu)
    {
      ShapeCpus(core, off, layout[k], size, threads, cpu);
    }
  }

  /** slurm_job_cpus_allocated_str_on_node_id up to the rendering. */
  method CpusOfNode(layout: seq<Shape>, core: seq<bool>, nodeId: nat, threads: nat) returns (cpus: set<nat>)
    requires nodeId < |Sizes(layout)| && |core| == Total(Sizes(layout))
    ensures NodeInRange(Sizes(layout), nodeId)
    ensures cpus == Cpus(core, Offset(Sizes(layout), nodeId), Sizes(layout)[nodeId], threads)
    ensures forall k: nat, r: nat, cpu: nat | IsNode(layout, k, r, nodeId) ::
              cpu in cpus <==> OnSomeCore(core, Offset(Sizes(layout), nodeId), layout[k], threads, cpu)
  {
    hide Sizes, Offset, Cpus, IsNode, OnSomeCore, SomeCore;
    var off, size := FirstBit(layout, nodeId);
    RangeInside(Sizes(layout), nodeId);
    NodeCpus(layout, core, nodeId, threads);
    cpus := CpuBitmap(core, off, size, threads);
  }

  ghost predicate NodeInRange(sizes: seq<nat>, i: nat) {
    i < |sizes| && Offset(sizes, i) + sizes[i] <= Total(sizes)
  }

  lemma RangeInside(sizes: seq<nat>, i: nat)
    requires i < |sizes|
    ensures NodeInRange(sizes, i)
  {
    OffsetMonotone(sizes, i + 1, |sizes|);
  }

  // ---- The layout as the cursor walks it -----------------------------------

  /**
   The printing cursor takes at least one node from every run it moves to, so a
   run of no nodes counts as one, except the first.
   */
  function Walked(layout: seq<Shape>): (w: seq<Shape>)
    ensures |w| == |layout|
    ensures forall k | 0 <= k < |w| ::
              w[k] == if k > 0 && layout[k].reps == 0 then layout[k].(reps := 1) else layout[k]
  {
    seq(|layout|, k requires 0 <= k < |layout| =>
      if k > 0 && layout[k].reps == 0 then layout[k].(reps := 1) else layout[k])
  }

  lemma {:induction false} WalkedCount(layout: seq<Shape>, k: nat)
    requires k <= |layout|
    ensures NodesBefore(Walked(layout), k) >= NodesBefore(layout, k)
    ensures (exists x | 0 < x < k :: layout[x].reps == 0) <==> NodesBefore(Walked(layout), k) > NodesBefore(layout, k)
  {
    if k > 0 { WalkedCount(layout, k - 1); }
  }

  lemma WalkedLonger(layout: seq<Shape>)
    ensures |Sizes(layout)| <= |Sizes(Walked(layout))|
  {
    hide Sizes, NodesBefore;
    NodeCount(layout);
    NodeCount(Walked(layout));
    WalkedCount(layout, |layout|);
  }

  /** Every node is some node of some run. */
  lemma RunOf(layout: seq<Shape>, i: nat) returns (k: nat, r: nat)
    requires i < |Sizes(layout)|
    ensures k < |layout| && r < layout[k].reps && i == NodesBefore(layout, k) + r
    ensures Sizes(layout)[i] == SizeOf(layout[k])
  {
    hide Sizes;
    NodeCount(layout);
    assert |layout| > 0;
    k := |layout| - 1;
    while i < NodesBefore(layout, k)
      invariant 0 <= k < |layout| && i < NodesBefore(layout, k + 1)
      decreases k
    {
      k := k - 1;
    }
    r := i - NodesBefore(layout, k);
    SizeAt(layout, k, r);
  }

  /** Every bit of the core bitmap is one core of one socket of one node. */
  lemma EveryBitIsACore(layout: seq<Shape>, bit: nat) returns (k: nat, r: nat, i: nat, s: nat, c: nat)
    requires bit < Total(Sizes(layout))
    ensures IsNode(layout, k, r, i) && i < |Sizes(layout)| && Offset(Sizes(layout), i) <= bit
    ensures IsCore(layout[k], s, c, bit - Offset(Sizes(layout), i))
  {
    hide Sizes, IsCore, NodesBefore;
    i := RangesTile(Sizes(layout), bit);
    k, r := RunOf(layout, i);
    NodeBits(layout, k, r, i, bit);
    s, c :| IsCore(layout[k], s, c, bit - Offset(Sizes(layout), i));
  }

  /** And of no other. */
  lemma OneCorePerBit(layout: seq<Shape>, bit: nat, k: nat, r: nat, i: nat, s: nat, c: nat,
                      k': nat, r': nat, i': nat, s': nat, c': nat)
    requires IsNode(layout, k, r, i) && i < |Sizes(layout)| && Offset(Sizes(layout), i) <= bit
    requires IsNode(layout, k', r', i') && i' < |Sizes(layout)| && Offset(Sizes(layout), i') <= bit
    requires IsCore(layout[k], s, c, bit - Offset(Sizes(layout), i))
    requires IsCore(layout[k'], s', c', bit - Offset(Sizes(layout), i'))
    ensures k == k' && r == r' && i == i' && s == s' && c == c'
  {
    hide Sizes, IsCore;
    NodeBits(layout, k, r, i, bit);
    NodeBits(layout, k', r', i', bit);
    if i < i' { OffsetMonotone(Sizes(layout), i + 1, i'); }
    if i' < i { OffsetMonotone(Sizes(layout), i' + 1, i); }
    if k < k' { RunEnds(layout, k, k', r); }
    if k' < k { RunEnds(layout, k', k, r'); }
    OneCore(layout[k], s, c, s', c', bit - Offset(Sizes(layout), i));
  }

  /** An empty run, not the first, with nodes after it. */
  ghost predicate EmptyInside(layout: seq<Shape>, k: nat) {
    0 < k < |layout| && layout[k].reps == 0 && NodesBefore(layout, k) < |Sizes(layout)|
  }

  /** The cursor gives every node of the job the size that random access gives it. */
  ghost predicate NodesMatch(layout: seq<Shape>) {
    && |Sizes(layout)| <= |Sizes(Walked(layout))|
    && forall i | 0 <= i < |Sizes(layout)| :: Sizes(Walked(layout))[i] == Sizes(layout)[i]
  }

  /** The same as far as there are cores. */
  ghost predicate WalksRight(layout: seq<Shape>) {
    && |Sizes(layout)| <= |Sizes(Walked(layout))|
    && forall i | 0 <= i < |Sizes(layout)| && Offset(Sizes(layout), i) < Total(Sizes(layout)) ::
         Sizes(Walked(layout))[i] == Sizes(layout)[i]
  }

  lemma MatchWalksRight(layout: seq<Shape>)
    ensures NodesMatch(layout) ==> WalksRight(layout)
    ensures (forall i | 0 <= i < |Sizes(layout)| :: Sizes(layout)[i] > 0) && WalksRight(layout) ==> NodesMatch(layout)
  {
    hide Sizes;
    var sizes := Sizes(layout);
    if forall i | 0 <= i < |sizes| :: sizes[i] > 0 {
      forall i | 0 <= i < |sizes| ensures Offset(sizes, i) < Total(sizes) { OffsetMonotone(sizes, i + 1, |sizes|); }
    }
  }

  /** Before the first empty run both number the nodes alike. */
  lemma WalkedAlike(layout: seq<Shape>, k: nat, r: nat)
    requires k < |layout| && r < layout[k].reps && forall x | 0 < x < k :: layout[x].reps > 0
    ensures var i := NodesBefore(layout, k) + r;
            i < |Sizes(layout)| && i < |Sizes(Walked(layout))| && Sizes(Walked(layout))[i] == Sizes(layout)[i]
  {
    hide Sizes, NodesBefore;
    WalkedCount(layout, k);
    SizeAt(layout, k, r);
    SizeAt(Walked(layout), k, r);
  }

  /** Without an empty run inside, every node matches. */
  lemma NoneInsideMatches(layout: seq<Shape>)
    requires forall k: nat :: !EmptyInside(layout, k)
    ensures NodesMatch(layout)
  {
    hide Sizes, NodesBefore;
    WalkedLonger(layout);
    forall i | 0 <= i < |Sizes(layout)| ensures Sizes(Walked(layout))[i] == Sizes(layout)[i] {
      var k, r := RunOf(layout, i);
      forall x | 0 < x < k ensures layout[x].reps > 0 {
        NodesBeforeMonotone(layout, x, k);
        assert !EmptyInside(layout, x);
      }
      WalkedAlike(layout, k, r);
    }
  }

  /** The first run inside the layout that is empty. */
  ghost predicate FirstInside(layout: seq<Shape>, k: nat) {
    EmptyInside(layout, k) && forall x | 0 < x < k :: layout[x].reps > 0
  }

  /** The empty runs inside are all of one size. */
  ghost predicate OneSize(layout: seq<Shape>, size: nat) {
    forall x: nat | EmptyInside(layout, x) :: SizeOf(layout[x]) == size
  }

  /** At the first empty run inside, the cursor takes that run's size for the node that follows it. */
  lemma FirstInsideTaken(layout: seq<Shape>, k: nat)
    requires FirstInside(layout, k)
    ensures var p := NodesBefore(layout, k);
            p < |Sizes(layout)| <= |Sizes(Walked(layout))| && Sizes(Walked(layout))[p] == SizeOf(layout[k])
    ensures Sizes(layout)[NodesBefore(layout, k)] != SizeOf(layout[k]) ==> !NodesMatch(layout)
  {
    hide Sizes, NodesBefore;
    WalkedLonger(layout);
    WalkedCount(layout, k);
    SizeAt(Walked(layout), k, 0);
  }

  /** From the first empty run inside on, the cursor takes an empty run's size or that of an earlier node. */
  lemma WalkedFrom(layout: seq<Shape>, k: nat, i: nat) returns (x: nat, j: nat)
    requires FirstInside(layout, k) && NodesBefore(layout, k) <= i < |Sizes(layout)|
    ensures i < |Sizes(Walked(layout))| && x < |layout| && Sizes(Walked(layout))[i] == SizeOf(layout[x])
    ensures EmptyInside(layout, x) || (NodesBefore(layout, k) <= j < i && Sizes(layout)[j] == SizeOf(layout[x]))
  {
    hide Sizes, NodesBefore;
    var w, p := Walked(layout), NodesBefore(layout, k);
    WalkedLonger(layout);
    var r;
    x, r := RunOf(w, i);
    WalkedCount(layout, x);
    WalkedCount(layout, k);
    j := 0;
    if x == 0 || layout[x].reps > 0 {
      SizeAt(layout, x, r);
      j := NodesBefore(layout, x) + r;
      if x < k {
        RunEnds(layout, x, k, r);
        assert false;
      }
      NodesBeforeMonotone(layout, k, x);
    }
  }

  /** The nodes of a run come before those of later runs. */
  lemma RunEnds(layout: seq<Shape>, x: nat, k: nat, r: nat)
    requires x < k <= |layout| && r < layout[x].reps
    ensures NodesBefore(layout, x) + r < NodesBefore(layout, k)
  {
    NodesBeforeMonotone(layout, x + 1, k);
  }

  /**
   With empty runs inside that are all of one size, every node matches if and
   only if all nodes from the first of these runs on have that size.
   */
  lemma OneSizeMatchesIff(layout: seq<Shape>, k: nat)
    requires FirstInside(layout, k)
    requires OneSize(layout, SizeOf(layout[k]))
    ensures NodesMatch(layout) <==>
            forall i | NodesBefore(layout, k) <= i < |Sizes(layout)| :: Sizes(layout)[i] == SizeOf(layout[k])
  {
    hide Sizes, NodesBefore;
    var p, n := NodesBefore(layout, k), |Sizes(layout)|;
    if NodesMatch(layout) {
      forall i | p <= i < n ensures Sizes(layout)[i] == SizeOf(layout[k]) { MatchedSize(layout, k, i); }
    }
    if forall i | p <= i < n :: Sizes(layout)[i] == SizeOf(layout[k]) {
      WalkedLonger(layout);
      forall i | 0 <= i < n ensures Sizes(Walked(layout))[i] == Sizes(layout)[i] {
        if i < p { BeforeInside(layout, k, i); } else { var x, j := WalkedFrom(layout, k, i); }
      }
    }
  }

  lemma BeforeInside(layout: seq<Shape>, k: nat, i: nat)
    requires FirstInside(layout, k) && i < NodesBefore(layout, k)
    ensures i < |Sizes(layout)| && i < |Sizes(Walked(layout))| && Sizes(Walked(layout))[i] == Sizes(layout)[i]
  {
    hide Sizes, NodesBefore;
    var x, r := RunOf(layout, i);
    if x >= k { NodesBeforeMonotone(layout, k, x); }
    WalkedAlike(layout, x, r);
  }

  lemma {:induction false} MatchedSize(layout: seq<Shape>, k: nat, i: nat)
    requires FirstInside(layout, k) && NodesMatch(layout) && NodesBefore(layout, k) <= i < |Sizes(layout)|
    requires OneSize(layout, SizeOf(layout[k]))
    ensures Sizes(layout)[i] == SizeOf(layout[k])
    decreases i
  {
    hide Sizes, NodesBefore;
    var x, j := WalkedFrom(layout, k, i);
    if !EmptyInside(layout, x) { MatchedSize(layout, k, j); }
  }
}
