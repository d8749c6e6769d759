/**
 The pair list of a PMI-2 spawn command (contribs/pmi2/pmi2_api.c,
 PMI2_Job_Spawn): the table is sized by one pass over the arguments and filled
 by another, and the two agree.
 */
module Pmi2Spawn {
  import opened Decimal
  import opened Pmi2Wire

  /** One executable to spawn. */
  datatype Job = Job(cmd: string, maxprocs: nat, args: seq<string>, info: seq<Pair>)

  // ---- The list ------------------------------------------------------------

  function ArgPairs(args: seq<string>): (r: seq<Pair>)
    ensures |r| == |args|
  {
    seq(|args|, i requires 0 <= i < |args| => Pair("argv" + Numeral(i), args[i]))
  }

  /** Keys and values of a list under numbered names, alternating. */
  function Numbered(key: string, val: string, ps: seq<Pair>): (r: seq<Pair>)
    ensures |r| == 2 * |ps|
  {
    if ps == [] then []
    else
      var n := |ps| - 1;
      Numbered(key, val, ps[..n]) + [Pair(key + Numeral(n), ps[n].key), Pair(val + Numeral(n), ps[n].value)]
  }

  function InfoPairs(info: seq<Pair>, hasInfo: bool): seq<Pair> {
    if hasInfo then [Pair("infokeycount", Numeral(|info|))] + Numbered("infokey", "infoval", info) else []
  }

  function JobHead(j: Job): seq<Pair> {
    [Pair("subcmd", j.cmd), Pair("maxprocs", Numeral(j.maxprocs)), Pair("argc", Numeral(|j.args|))]
  }

  function JobPairs(j: Job, hasInfo: bool): seq<Pair> {
    JobHead(j) + ArgPairs(j.args) + InfoPairs(j.info, hasInfo)
  }

  function AllJobPairs(jobs: seq<Job>, hasInfo: bool): seq<Pair> {
    if jobs == [] then [] else AllJobPairs(jobs[..|jobs| - 1], hasInfo) + JobPairs(jobs[|jobs| - 1], hasInfo)
  }

  function SpawnPairs(preput: seq<Pair>, jobs: seq<Job>, hasInfo: bool): seq<Pair> {
    [Pair("ncmds", Numeral(|jobs|)), Pair("preputcount", Numeral(|preput|))]
    + Numbered("ppkey", "ppval", preput) + AllJobPairs(jobs, hasInfo)
  }

  // ---- Sizing and filling --------------------------------------------------

  lemma {:induction false} AllJobsPrefix(jobs: seq<Job>, k: nat, hasInfo: bool)
    requires k < |jobs|
    ensures AllJobPairs(jobs[..k + 1], hasInfo) == AllJobPairs(jobs[..k], hasInfo) + JobPairs(jobs[k], hasInfo)
  {
    assert jobs[..k + 1][..k] == jobs[..k];
  }

  lemma {:induction false} PrefixFits(jobs: seq<Job>, k: nat, hasInfo: bool)
    requires k <= |jobs|
    ensures |AllJobPairs(jobs[..k], hasInfo)| <= |AllJobPairs(jobs, hasInfo)|
    decreases |jobs| - k
  {
    if k < |jobs| {
      AllJobsPrefix(jobs, k, hasInfo);
      PrefixFits(jobs, k + 1, hasInfo);
    } else {
      assert jobs[..k] == jobs;
    }
  }

  /** The first pass: the number of pairs, from the sizes alone. */
  method CountPairsNeeded(preput: seq<Pair>, jobs: seq<Job>, hasInfo: bool) returns (total: nat)
    ensures total == |SpawnPairs(preput, jobs, hasInfo)|
  {
    total := 2;
    total := total + 3 * |jobs|;
    total := total + 2 * |preput|;
    var k := 0;
    assert jobs[..0] == [];
    while k < |jobs|
      invariant 0 <= k <= |jobs|
      invariant total == 2 + 3 * (|jobs| - k) + 2 * |preput| + |AllJobPairs(jobs[..k], hasInfo)|
    {
      AllJobsPrefix(jobs, k, hasInfo);
      total := total + |jobs[k].args|;
      if hasInfo { total := total + 1 + 2 * |jobs[k].info|; }
      k := k + 1;
    }
    assert jobs[..k] == jobs;
  }

  method PutPair(a: array<Pair>, n: nat, p: Pair) returns (n': nat)
    requires n < a.Length
    modifies a
    ensures n' == n + 1 && a[..n'] == old(a[..n]) + [p]
  {
    a[n] := p;
    n' := n + 1;
  }

  method PutArgs(a: array<Pair>, n: nat, args: seq<string>) returns (n': nat)
    requires n + |args| <= a.Length
    modifies a
    ensures n' == n + |args| && a[..n'] == old(a[..n]) + ArgPairs(args)
  {
    n' := n;
    var i := 0;
    while i < |args|
      invariant 0 <= i <= |args| && n' == n + i
      invariant a[..n'] == old(a[..n]) + ArgPairs(args)[..i]
    {
      n' := PutPair(a, n', Pair("argv" + Numeral(i), args[i]));
      i := i + 1;
    }
  }

  method PutNumbered(a: array<Pair>, n: nat, key: string, val: string, ps: seq<Pair>) returns (n': nat)
    requires n + 2 * |ps| <= a.Length
    modifies a
    ensures n' == n + 2 * |ps| && a[..n'] == old(a[..n]) + Numbered(key, val, ps)
  {
    n' := n;
    var i := 0;
    assert ps[..0] == [];
    while i < |ps|
      invariant 0 <= i <= |ps| && n' == n + 2 * i
      invariant a[..n'] == old(a[..n]) + Numbered(key, val, ps[..i])
    {
      hide Numeral;
      assert ps[..i + 1][..i] == ps[..i];
      n' := PutPair(a, n', Pair(key + Numeral(i), ps[i].key));
      n' := PutPair(a, n', Pair(val + Numeral(i), ps[i].value));
      i := i + 1;
    }
    assert ps[..i] == ps;
  }

  method PutHead(a: array<Pair>, n: nat, j: Job) returns (n': nat)
    requires n + 3 <= a.Length
    modifies a
    ensures n' == n + 3 && a[..n'] == old(a[..n]) + JobHead(j)
  {
    hide Numeral;
    n' := PutPair(a, n, Pair("subcmd", j.cmd));
    n' := PutPair(a, n', Pair("maxprocs", Numeral(j.maxprocs)));
    n' := PutPair(a, n', Pair("argc", Numeral(|j.args|)));
  }

  method PutInfo(a: array<Pair>, n: nat, info: seq<Pair>, hasInfo: bool) returns (n': nat)
    requires n + |InfoPairs(info, hasInfo)| <= a.Length
    modifies a
    ensures n' == n + |InfoPairs(info, hasInfo)| && a[..n'] == old(a[..n]) + InfoPairs(info, hasInfo)
  {
    hide Numeral, Numbered;
    n' := n;
    if hasInfo {
      ghost var s, count := a[..n], [Pair("infokeycount", Numeral(|info|))];
      n' := PutPair(a, n', Pair("infokeycount", Numeral(|info|)));
      n' := PutNumbered(a, n', "infokey", "infoval", info);
      Regroup(s, count, Numbered("infokey", "infoval", info));
    }
  }

  lemma Regroup(s: seq<Pair>, x: seq<Pair>, y: seq<Pair>)
    ensures s + x + y == s + (x + y)
  {
  }

  method PutJob(a: array<Pair>, n: nat, j: Job, hasInfo: bool) returns (n': nat)
    requires n + |JobPairs(j, hasInfo)| <= a.Length
    modifies a
    ensures n' == n + |JobPairs(j, hasInfo)| && a[..n'] == old(a[..n]) + JobPairs(j, hasInfo)
  {
    hide Numeral, ArgPairs, InfoPairs;
    ghost var s, head, args, info := a[..n], JobHead(j), ArgPairs(j.args), InfoPairs(j.info, hasInfo);
    assert JobPairs(j, hasInfo) == head + args + info;
    hide JobHead, JobPairs;
    n' := PutHead(a, n, j);
    n' := PutArgs(a, n', j.args);
    n' := PutInfo(a, n', j.info, hasInfo);
    Regroup(s, head, args);
    Regroup(s, head + args, info);
  }

  method PutJobs(a: array<Pair>, n: nat, jobs: seq<Job>, hasInfo: bool) returns (n': nat)
    requires n + |AllJobPairs(jobs, hasInfo)| <= a.Length
    modifies a
    ensures n' == n + |AllJobPairs(jobs, hasInfo)| && a[..n'] == old(a[..n]) + AllJobPairs(jobs, hasInfo)
  {
    hide AllJobPairs, JobPairs;
    ghost var head := a[..n];
    n' := n;
    var k := 0;
    NoJobs(jobs, hasInfo);
    while k < |jobs|
      invariant 0 <= k <= |jobs| && n' == n + |AllJobPairs(jobs[..k], hasInfo)| <= a.Length
      invariant a[..n'] == head + AllJobPairs(jobs[..k], hasInfo)
    {
      AllJobsPrefix(jobs, k, hasInfo);
      PrefixFits(jobs, k + 1, hasInfo);
      Regroup(head, AllJobPairs(jobs[..k], hasInfo), JobPairs(jobs[k], hasInfo));
      n' := PutJob(a, n', jobs[k], hasInfo);
      k := k + 1;
    }
    assert jobs[..k] == jobs;
  }

  lemma NoJobs(jobs: seq<Job>, hasInfo: bool)
    ensures AllJobPairs(jobs[..0], hasInfo) == []
  {
  }

  /** Both passes: every slot of the table is filled, with the pairs of the command in order. */
  method BuildSpawn(preput: seq<Pair>, jobs: seq<Job>, hasInfo: bool) returns (a: array<Pair>)
    ensures fresh(a) && a[..] == SpawnPairs(preput, jobs, hasInfo)
  {
    hide Numeral, Numbered, AllJobPairs;
    var total := CountPairsNeeded(preput, jobs, hasInfo);
    a := new Pair[total](i => Pair("", ""));
    var npairs := 0;
    npairs := PutPair(a, npairs, Pair("ncmds", Numeral(|jobs|)));
    npairs := PutPair(a, npairs, Pair("preputcount", Numeral(|preput|)));
    ghost var head := [Pair("ncmds", Numeral(|jobs|)), Pair("preputcount", Numeral(|preput|))];
    assert a[..npairs] == head;
    npairs := PutNumbered(a, npairs, "ppkey", "ppval", preput);
    npairs := PutJobs(a, npairs, jobs, hasInfo);
    assert a[..npairs] == a[..];
  }

  // ---- The command on the wire ---------------------------------------------

  ghost predicate PlainKey(k: string) { '=' !in k && ';' !in k && '\0' !in k && k != "thrid" }

  ghost predicate PlainKeys(ps: seq<Pair>) { forall i | 0 <= i < |ps| :: PlainKey(ps[i].key) }

  lemma NumberedKey(name: string, n: nat)
    requires '=' !in name && ';' !in name && '\0' !in name
    ensures PlainKey(name + Numeral(n))
  {
    NumeralRoundTrip(n);
    var k, d := name + Numeral(n), Numeral(n);
    assert k[|k| - 1] == d[|d| - 1] && IsDigit(d[|d| - 1]);
    var w := "thrid";
    assert !IsDigit(w[|w| - 1]);
  }

  lemma {:induction false} NumberedPlain(key: string, val: string, ps: seq<Pair>)
    requires '=' !in key && ';' !in key && '\0' !in key && '=' !in val && ';' !in val && '\0' !in val
    ensures PlainKeys(Numbered(key, val, ps))
  {
    if ps != [] {
      hide PlainKey;
      var n := |ps| - 1;
      NumberedPlain(key, val, ps[..n]);
      NumberedKey(key, n);
      NumberedKey(val, n);
    }
  }

  lemma PlainJoin(a: seq<Pair>, b: seq<Pair>)
    requires PlainKeys(a) && PlainKeys(b)
    ensures PlainKeys(a + b)
  {
    hide PlainKey;
  }

  /** The keys written out in the source. */
  predicate FixedKey(k: string) {
    k == "ncmds" || k == "preputcount" || k == "infokeycount" || k == "subcmd" || k == "maxprocs" || k == "argc"
  }

  lemma FixedPlain(k: string)
    requires FixedKey(k)
    ensures PlainKey(k)
  {
  }

  lemma FixedKeys(ps: seq<Pair>)
    requires forall i | 0 <= i < |ps| :: FixedKey(ps[i].key)
    ensures PlainKeys(ps)
  {
    hide PlainKey, FixedKey;
    forall i | 0 <= i < |ps| ensures PlainKey(ps[i].key) { FixedPlain(ps[i].key); }
  }

  lemma ArgsPlain(args: seq<string>)
    ensures PlainKeys(ArgPairs(args))
  {
    hide PlainKey, Numeral;
    forall i | 0 <= i < |args| ensures PlainKey(ArgPairs(args)[i].key) { NumberedKey("argv", i); }
  }

  lemma JobPlain(j: Job, hasInfo: bool)
    ensures PlainKeys(JobPairs(j, hasInfo))
  {
    NumberedPlain("infokey", "infoval", j.info);
    hide PlainKeys, Numbered, ArgPairs, Numeral;
    var head, count := JobHead(j), [Pair("infokeycount", Numeral(|j.info|))];
    FixedKeys(head);
    FixedKeys(count);
    ArgsPlain(j.args);
    PlainJoin(head, ArgPairs(j.args));
    PlainJoin(count, Numbered("infokey", "infoval", j.info));
    NoPairsPlain();
    PlainJoin(head + ArgPairs(j.args), InfoPairs(j.info, hasInfo));
  }

  lemma NoPairsPlain()
    ensures PlainKeys([])
  {
  }

  lemma {:induction false} AllJobsPlain(jobs: seq<Job>, hasInfo: bool)
    ensures PlainKeys(AllJobPairs(jobs, hasInfo))
  {
    if jobs != [] {
      hide PlainKey, JobPairs;
      AllJobsPlain(jobs[..|jobs| - 1], hasInfo);
      JobPlain(jobs[|jobs| - 1], hasInfo);
    }
  }

  /** Every spawn command that fits is read back as it was built, whatever its arguments contain. */
  lemma SpawnRoundTrip(preput: seq<Pair>, jobs: seq<Job>, hasInfo: bool, rest: string, who: string -> Target)
    requires WithinLimits("spawn", SpawnPairs(preput, jobs, hasInfo))
    ensures var ps := SpawnPairs(preput, jobs, hasInfo);
            ReadOne(Frame("spawn", ps) + rest, who) == (Command("spawn", ps, |ps|), rest)
  {
    var ps := SpawnPairs(preput, jobs, hasInfo);
    SpawnPlain(preput, jobs, hasInfo);
    hide SpawnPairs, Body, Frame, ReadOne;
    forall i | 0 <= i < |ps| ensures CleanKey(ps[i].key) { assert PlainKey(ps[i].key); }
    FrameRoundTrip("spawn", ps, rest, who);
  }

  lemma SpawnPlain(preput: seq<Pair>, jobs: seq<Job>, hasInfo: bool)
    ensures PlainKeys(SpawnPairs(preput, jobs, hasInfo))
  {
    NumberedPlain("ppkey", "ppval", preput);
    hide PlainKeys, Numbered, AllJobPairs, Numeral;
    AllJobsPlain(jobs, hasInfo);
    var head := [Pair("ncmds", Numeral(|jobs|)), Pair("preputcount", Numeral(|preput|))];
    FixedKeys(head);
    PlainJoin(head, Numbered("ppkey", "ppval", preput));
    PlainJoin(head + Numbered("ppkey", "ppval", preput), AllJobPairs(jobs, hasInfo));
  }
}
