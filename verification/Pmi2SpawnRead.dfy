/**
 The other end of a PMI-2 spawn command (src/plugins/mpi/pmi2/client.c): the step
 daemon splits the body into pairs and reads the request out of them, counts
 first and then that many numbered pairs.
 */
module Pmi2SpawnRead {
  import opened Decimal
  import opened Pmi2Wire
  import opened Pmi2Spawn

  const WORD := 0x1_0000_0000

  /** `atoi` into an unsigned 32-bit field. */
  function Count(s: string): (n: nat)
    ensures n < WORD
  {
    Atoi(s) % WORD
  }

  datatype SpawnReq = SpawnReq(preput: seq<Pair>, jobs: seq<Job>)

  /** What is read and the pairs not used yet, or an error. */
  datatype Reading<T> = Rejected | Took(value: T, rest: seq<Pair>)

  // ---- What is read --------------------------------------------------------

  /** The next pair has this key; there is a NULL key after the last pair. */
  predicate NextIs(ps: seq<Pair>, key: string) { ps != [] && ps[0].key == key }

  predicate IsNumbered(key: string, name: string, i: nat) { name <= key && Atoi(key[|name|..]) == i }

  /** The next pair has the i-th key of this name. */
  predicate NextNumbered(ps: seq<Pair>, name: string, i: nat) { ps != [] && IsNumbered(ps[0].key, name, i) }

  /** Arguments i .. n-1. */
  function ReadArgs(ps: seq<Pair>, i: nat, n: nat): Reading<seq<string>>
    requires i <= n
    decreases n - i
  {
    if i == n then Took([], ps)
    else if !NextNumbered(ps, "argv", i) then Rejected
    else
      match ReadArgs(ps[1..], i + 1, n)
      case Rejected => Rejected
      case Took(args, rest) => Took([ps[0].value] + args, rest)
  }

  /** Numbered keys and values i .. n-1. */
  function ReadList(ps: seq<Pair>, key: string, val: string, i: nat, n: nat): Reading<seq<Pair>>
    requires i <= n
    decreases n - i
  {
    if i == n then Took([], ps)
    else if !NextNumbered(ps, key, i) || !NextNumbered(ps[1..], val, i) then Rejected
    else
      match ReadList(ps[2..], key, val, i + 1, n)
      case Rejected => Rejected
      case Took(list, rest) => Took([Pair(ps[0].value, ps[1].value)] + list, rest)
  }

  /** The optional info of a job with `left` jobs after it. */
  function ReadInfo(ps: seq<Pair>, left: nat): Reading<seq<Pair>> {
    if ps == [] then (if left == 0 then Took([], ps) else Rejected)
    else if !NextIs(ps, "infokeycount") then Took([], ps)
    else
      var n := Count(ps[0].value);
      if |ps| - 1 < (2 * n + 3 * left) % WORD then Rejected else ReadList(ps[1..], "infokey", "infoval", 0, n)
  }

  /** One job with `left` jobs after it. */
  function ReadJob(ps: seq<Pair>, left: nat): Reading<Job> {
    if !(NextIs(ps, "subcmd") && NextIs(ps[1..], "maxprocs") && NextIs(ps[2..], "argc")) then Rejected
    else
      var argc := Count(ps[2].value);
      if |ps| - 3 < (argc + 3 * left) % WORD then Rejected
      else
        match ReadArgs(ps[3..], 0, argc)
        case Rejected => Rejected
        case Took(args, rest) =>
          match ReadInfo(rest, left)
          case Rejected => Rejected
          case Took(info, rest') => Took(Job(ps[0].value, Count(ps[1].value), args, info), rest')
  }

  function ReadJobs(ps: seq<Pair>, n: nat): Reading<seq<Job>>
    decreases n
  {
    if n == 0 then Took([], ps)
    else
      match ReadJob(ps, n - 1)
      case Rejected => Rejected
      case Took(j, rest) =>
        match ReadJobs(rest, n - 1)
        case Rejected => Rejected
        case Took(jobs, rest') => Took([j] + jobs, rest')
  }

  function ReadSpawn(ps: seq<Pair>): Reading<SpawnReq> {
    if |ps| < 5 || !NextIs(ps, "ncmds") || !NextIs(ps[1..], "preputcount") then Rejected
    else
      var n, m := Count(ps[0].value), Count(ps[1].value);
      if |ps| - 2 < (2 * m + 3 * n) % WORD then Rejected
      else
        match ReadList(ps[2..], "ppkey", "ppval", 0, m)
        case Rejected => Rejected
        case Took(preput, rest) =>
          match ReadJobs(rest, n)
          case Rejected => Rejected
          case Took(jobs, rest') => Took(SpawnReq(preput, jobs), rest')
  }

  // ---- Reading what was written --------------------------------------------

  lemma CountNumeral(n: nat)
    requires n < WORD
    ensures Count(Numeral(n)) == n
  {
    assert Numeral(n) + "" == Numeral(n);
    AtoiNumeral(n, "");
  }

  lemma NumberedName(name: string, i: nat)
    ensures IsNumbered(name + Numeral(i), name, i)
  {
    assert (name + Numeral(i))[|name|..] == Numeral(i) + "";
    AtoiNumeral(i, "");
  }

  lemma {:induction false} ArgsReadBack(args: seq<string>, i: nat, rest: seq<Pair>)
    requires i <= |args|
    ensures ReadArgs(ArgPairs(args)[i..] + rest, i, |args|) == Took(args[i..], rest)
    decreases |args| - i
  {
    hide Numeral, IsNumbered;
    var ps := ArgPairs(args)[i..] + rest;
    if i == |args| {
      assert ps == rest && args[i..] == [];
    } else {
      NumberedName("argv", i);
      assert ps[0] == Pair("argv" + Numeral(i), args[i]) && ps[1..] == ArgPairs(args)[i + 1..] + rest;
      ArgsReadBack(args, i + 1, rest);
      assert [args[i]] + args[i + 1..] == args[i..];
    }
  }

  lemma {:induction false} NumberedAt(key: string, val: string, ps: seq<Pair>, i: nat)
    requires i < |ps|
    ensures Numbered(key, val, ps)[2 * i] == Pair(key + Numeral(i), ps[i].key)
    ensures Numbered(key, val, ps)[2 * i + 1] == Pair(val + Numeral(i), ps[i].value)
    decreases |ps|
  {
    hide Numeral;
    var n := |ps| - 1;
    if i < n { NumberedAt(key, val, ps[..n], i); }
  }

  lemma {:induction false} ListReadBack(key: string, val: string, list: seq<Pair>, i: nat, rest: seq<Pair>)
    requires i <= |list|
    ensures ReadList(Numbered(key, val, list)[2 * i..] + rest, key, val, i, |list|) == Took(list[i..], rest)
    decreases |list| - i
  {
    hide Numeral, IsNumbered, Numbered;
    var all := Numbered(key, val, list);
    var ps := all[2 * i..] + rest;
    if i == |list| {
      assert ps == rest && list[i..] == [];
    } else {
      NumberedAt(key, val, list, i);
      NumberedName(key, i);
      NumberedName(val, i);
      assert ps[0] == all[2 * i] && ps[1..][0] == ps[1] == all[2 * i + 1] && ps[2..] == all[2 * (i + 1)..] + rest;
      ListReadBack(key, val, list, i + 1, rest);
      assert [list[i]] + list[i + 1..] == list[i..] && Pair(list[i].key, list[i].value) == list[i];
    }
  }

  /** What follows a job: `left` more jobs, and no info of this one. */
  ghost predicate Follows(rest: seq<Pair>, left: nat) {
    && 3 * left <= |rest|
    && (rest == [] || NextIs(rest, "subcmd"))
  }

  /** A job as it can be read: its info only if info was sent. */
  function Told(j: Job, hasInfo: bool): Job { if hasInfo then j else j.(info := []) }

  lemma InfoReadBack(info: seq<Pair>, hasInfo: bool, rest: seq<Pair>, left: nat)
    requires Follows(rest, left) && |InfoPairs(info, hasInfo)| + |rest| < WORD
    ensures ReadInfo(InfoPairs(info, hasInfo) + rest, left) == Took(if hasInfo then info else [], rest)
  {
    hide Numeral, Numbered, ReadList, Count;
    if hasInfo {
      CountNumeral(|info|);
      InfoHeadAt(info, rest);
      ListReadBack("infokey", "infoval", info, 0, rest);
      assert info[0..] == info;
    } else {
      assert InfoPairs(info, hasInfo) + rest == rest;
    }
  }

  lemma InfoHeadAt(info: seq<Pair>, rest: seq<Pair>)
    ensures var ps := InfoPairs(info, true) + rest;
            && |ps| == 1 + 2 * |info| + |rest| && ps[0] == Pair("infokeycount", Numeral(|info|))
            && ps[1..] == Numbered("infokey", "infoval", info)[2 * 0..] + rest
  {
    hide Numeral, Numbered;
  }

  lemma HeadAt(j: Job, more: seq<Pair>)
    ensures var ps := JobHead(j) + more;
            && ps[0] == Pair("subcmd", j.cmd) && ps[1..][0] == ps[1] == Pair("maxprocs", Numeral(j.maxprocs))
            && ps[2..][0] == ps[2] == Pair("argc", Numeral(|j.args|)) && ps[3..] == more && |ps| == 3 + |more|
  {
    hide Numeral;
  }

  lemma JobReadBack(j: Job, hasInfo: bool, rest: seq<Pair>, left: nat)
    requires Follows(rest, left) && j.maxprocs < WORD && |JobPairs(j, hasInfo)| + |rest| < WORD
    ensures ReadJob(JobPairs(j, hasInfo) + rest, left) == Took(Told(j, hasInfo), rest)
  {
    hide Numeral, ArgPairs, InfoPairs, ReadArgs, ReadInfo, JobHead, Count;
    var info := InfoPairs(j.info, hasInfo) + rest;
    var more := ArgPairs(j.args)[0..] + info;
    var ps := JobPairs(j, hasInfo) + rest;
    assert ps == JobHead(j) + more;
    HeadAt(j, more);
    CountNumeral(j.maxprocs);
    CountNumeral(|j.args|);
    assert |ps| - 3 == |j.args| + |info| && |info| >= |rest|;
    ArgsReadBack(j.args, 0, info);
    assert j.args[0..] == j.args;
    InfoReadBack(j.info, hasInfo, rest, left);
  }

  lemma {:induction false} FirstJob(jobs: seq<Job>, hasInfo: bool)
    requires jobs != []
    ensures AllJobPairs(jobs, hasInfo) == JobPairs(jobs[0], hasInfo) + AllJobPairs(jobs[1..], hasInfo)
    decreases |jobs|
  {
    hide JobPairs;
    var n := |jobs| - 1;
    if n > 0 {
      FirstJob(jobs[..n], hasInfo);
      assert jobs[..n][1..] == jobs[1..][..n - 1];
    }
  }

  /** Each of the jobs takes three pairs at least, and the list starts with the first one's command. */
  lemma {:induction false} JobsFollow(jobs: seq<Job>, hasInfo: bool)
    ensures Follows(AllJobPairs(jobs, hasInfo), |jobs|) && (AllJobPairs(jobs, hasInfo) == [] <==> jobs == [])
    decreases |jobs|
  {
    hide Numeral, ArgPairs, InfoPairs;
    if jobs != [] {
      FirstJob(jobs, hasInfo);
      JobsFollow(jobs[1..], hasInfo);
    }
  }

  function ToldAll(jobs: seq<Job>, hasInfo: bool): (r: seq<Job>)
    ensures |r| == |jobs| && forall i | 0 <= i < |jobs| :: r[i] == Told(jobs[i], hasInfo)
  {
    seq(|jobs|, i requires 0 <= i < |jobs| => Told(jobs[i], hasInfo))
  }

  lemma {:induction false} JobsReadBack(jobs: seq<Job>, hasInfo: bool)
    requires |AllJobPairs(jobs, hasInfo)| < WORD && forall i | 0 <= i < |jobs| :: jobs[i].maxprocs < WORD
    ensures ReadJobs(AllJobPairs(jobs, hasInfo), |jobs|) == Took(ToldAll(jobs, hasInfo), [])
    decreases |jobs|
  {
    hide JobPairs, ReadJob, Told, ToldAll, Follows;
    if jobs == [] {
      assert ToldAll(jobs, hasInfo) == [];
    } else {
      hide AllJobPairs;
      FirstJob(jobs, hasInfo);
      JobsFollow(jobs[1..], hasInfo);
      JobReadBack(jobs[0], hasInfo, AllJobPairs(jobs[1..], hasInfo), |jobs| - 1);
      JobsReadBack(jobs[1..], hasInfo);
      ToldFirst(jobs, hasInfo);
    }
  }

  lemma ToldFirst(jobs: seq<Job>, hasInfo: bool)
    requires jobs != []
    ensures ToldAll(jobs, hasInfo) == [Told(jobs[0], hasInfo)] + ToldAll(jobs[1..], hasInfo)
  {
    hide Told;
  }

  lemma SpawnHeadAt(preput: seq<Pair>, jobs: seq<Job>, hasInfo: bool)
    ensures var ps := SpawnPairs(preput, jobs, hasInfo);
            && |ps| == 2 + 2 * |preput| + |AllJobPairs(jobs, hasInfo)|
            && ps[0] == Pair("ncmds", Numeral(|jobs|)) && ps[1..][0] == ps[1] == Pair("preputcount", Numeral(|preput|))
            && ps[2..] == Numbered("ppkey", "ppval", preput)[2 * 0..] + AllJobPairs(jobs, hasInfo)
  {
    hide Numeral, Numbered, AllJobPairs;
  }

  /**
   Every spawn command whose numbers fit 32 bits is read as it was meant,
   infos included if there are any, unless it has no job and fewer than two
   pairs to put: such a command is rejected.
   */
  lemma SpawnReadBack(preput: seq<Pair>, jobs: seq<Job>, hasInfo: bool)
    requires |SpawnPairs(preput, jobs, hasInfo)| < WORD && forall i | 0 <= i < |jobs| :: jobs[i].maxprocs < WORD
    ensures ReadSpawn(SpawnPairs(preput, jobs, hasInfo))
            == if jobs != [] || |preput| >= 2 then Took(SpawnReq(preput, ToldAll(jobs, hasInfo)), []) else Rejected
  {
    hide Numeral, Numbered, AllJobPairs, ReadList, ReadJobs, SpawnPairs, Count;
    SpawnHeadAt(preput, jobs, hasInfo);
    JobsFollow(jobs, hasInfo);
    if jobs != [] || |preput| >= 2 {
      CountNumeral(|jobs|);
      CountNumeral(|preput|);
      ListReadBack("ppkey", "ppval", preput, 0, AllJobPairs(jobs, hasInfo));
      assert preput[0..] == preput;
      JobsReadBack(jobs, hasInfo);
    }
  }

  // ---- The loops -----------------------------------------------------------

  /** What is still to be read, after `done`. */
  function Prepend<T>(done: seq<T>, p: Reading<seq<T>>): Reading<seq<T>> {
    match p
    case Rejected => Rejected
    case Took(more, rest) => Took(done + more, rest)
  }

  lemma PrependOne<T>(done: seq<T>, x: T, p: Reading<seq<T>>)
    ensures Prepend(done, Prepend([x], p)) == Prepend(done + [x], p)
  {
    if p.Took? { assert done + ([x] + p.value) == done + [x] + p.value; }
  }

  lemma PrependNone<T>(p: Reading<seq<T>>)
    ensures Prepend([], p) == p
  {
    if p.Took? { assert [] + p.value == p.value; }
  }

  lemma PrependEnd<T>(done: seq<T>, rest: seq<Pair>)
    ensures Prepend(done, Took([], rest)) == Took(done, rest)
  {
    assert done + [] == done;
  }

  lemma ArgsStep(ps: seq<Pair>, i: nat, n: nat)
    requires i < n && NextNumbered(ps, "argv", i)
    ensures ReadArgs(ps, i, n) == Prepend([ps[0].value], ReadArgs(ps[1..], i + 1, n))
  {
    hide NextNumbered;
  }

  /** The argv loop. */
  method ParseArgs(ps: seq<Pair>, start: nat, argc: nat) returns (ok: bool, args: seq<string>, pi: nat)
    requires start <= |ps|
    ensures ok ==> pi <= |ps| && ReadArgs(ps[start..], 0, argc) == Took(args, ps[pi..])
    ensures !ok ==> ReadArgs(ps[start..], 0, argc) == Rejected
  {
    hide IsNumbered, Prepend;
    args, pi := [], start;
    var j := 0;
    PrependNone(ReadArgs(ps[start..], 0, argc));
    while j < argc
      invariant 0 <= j <= argc && start <= pi <= |ps|
      invariant ReadArgs(ps[start..], 0, argc) == Prepend(args, ReadArgs(ps[pi..], j, argc))
    {
      if !NextNumbered(ps[pi..], "argv", j) {
        RejectedStays(args);
        return false, [], pi;
      }
      ArgsStep(ps[pi..], j, argc);
      PrependOne(args, ps[pi].value, ReadArgs(ps[pi + 1..], j + 1, argc));
      assert ps[pi..][1..] == ps[pi + 1..];
      args := args + [ps[pi].value];
      pi := pi + 1;
      j := j + 1;
    }
    PrependEnd(args, ps[pi..]);
    ok := true;
  }

  lemma RejectedStays<T>(done: seq<T>)
    ensures Prepend(done, Rejected) == Rejected
  {
  }

  lemma ListStep(ps: seq<Pair>, key: string, val: string, i: nat, n: nat)
    requires i < n && NextNumbered(ps, key, i) && NextNumbered(ps[1..], val, i)
    ensures |ps| >= 2
    ensures ReadList(ps, key, val, i, n)
            == Prepend([Pair(ps[0].value, ps[1].value)], ReadList(ps[2..], key, val, i + 1, n))
  {
    hide IsNumbered;
  }

  /** The loops over numbered keys and values. */
  method ParseList(ps: seq<Pair>, start: nat, key: string, val: string, n: nat)
    returns (ok: bool, list: seq<Pair>, pi: nat)
    requires start <= |ps|
    ensures ok ==> pi <= |ps| && ReadList(ps[start..], key, val, 0, n) == Took(list, ps[pi..])
    ensures !ok ==> ReadList(ps[start..], key, val, 0, n) == Rejected
  {
    hide IsNumbered, Prepend;
    list, pi := [], start;
    var i := 0;
    PrependNone(ReadList(ps[start..], key, val, 0, n));
    while i < n
      invariant 0 <= i <= n && start <= pi <= |ps|
      invariant ReadList(ps[start..], key, val, 0, n) == Prepend(list, ReadList(ps[pi..], key, val, i, n))
    {
      RejectedStays(list);
      if !NextNumbered(ps[pi..], key, i) { return false, [], pi; }
      var k := ps[pi].value;
      assert ps[pi..][1..] == ps[pi + 1..];
      if !NextNumbered(ps[pi + 1..], val, i) { return false, [], pi; }
      ListStep(ps[pi..], key, val, i, n);
      assert ps[pi..][2..] == ps[pi + 2..];
      PrependOne(list, Pair(k, ps[pi + 1].value), ReadList(ps[pi + 2..], key, val, i + 1, n));
      list := list + [Pair(k, ps[pi + 1].value)];
      pi := pi + 2;
      i := i + 1;
    }
    PrependEnd(list, ps[pi..]);
    ok := true;
  }

  /** infokeycount and what it announces, if it is there. */
  method ParseInfo(ps: seq<Pair>, start: nat, left: nat) returns (ok: bool, info: seq<Pair>, pi: nat)
    requires start <= |ps|
    ensures ok ==> pi <= |ps| && ReadInfo(ps[start..], left) == Took(info, ps[pi..])
    ensures !ok ==> ReadInfo(ps[start..], left) == Rejected
  {
    hide ReadList, Count;
    pi := start;
    if pi == |ps| { return left == 0, [], pi; }
    if ps[pi].key != "infokeycount" { return true, [], pi; }
    var n := Count(ps[pi].value);
    assert ps[start..][1..] == ps[pi + 1..];
    pi := pi + 1;
    if |ps| - pi < (2 * n + 3 * left) % WORD { return false, [], pi; }
    ok, info, pi := ParseList(ps, pi, "infokey", "infoval", n);
  }

  /** The body of the subcmd loop. */
  method ParseJob(ps: seq<Pair>, start: nat, left: nat) returns (ok: bool, job: Job, pi: nat)
    requires start <= |ps|
    ensures ok ==> pi <= |ps| && ReadJob(ps[start..], left) == Took(job, ps[pi..])
    ensures !ok ==> ReadJob(ps[start..], left) == Rejected
  {
    hide ReadArgs, ReadInfo, Count;
    var s := ps[start..];
    job := Job("", 0, [], []);
    pi := start;
    assert |s| == |ps| - start && (|s| >= 1 ==> s[1..] == ps[start + 1..]) && (|s| >= 2 ==> s[2..] == ps[start + 2..]);
    if !NextIs(ps[pi..], "subcmd") { return false, job, pi; }
    var cmd := ps[pi].value;
    pi := pi + 1;
    if !NextIs(ps[pi..], "maxprocs") { return false, job, pi; }
    var maxprocs := Count(ps[pi].value);
    pi := pi + 1;
    if !NextIs(ps[pi..], "argc") { return false, job, pi; }
    var argc := Count(ps[pi].value);
    pi := pi + 1;
    assert s[3..] == ps[pi..];
    if |ps| - pi < (argc + 3 * left) % WORD { return false, job, pi; }
    var args, info;
    ok, args, pi := ParseArgs(ps, pi, argc);
    if !ok { return; }
    ok, info, pi := ParseInfo(ps, pi, left);
    if ok { job := Job(cmd, maxprocs, args, info); }
  }

  lemma JobsStep(ps: seq<Pair>, n: nat, job: Job, rest: seq<Pair>)
    requires n > 0 && ReadJob(ps, n - 1) == Took(job, rest)
    ensures ReadJobs(ps, n) == Prepend([job], ReadJobs(rest, n - 1))
  {
    hide ReadJob;
  }

  /** The subcmd loop. */
  method ParseJobs(ps: seq<Pair>, start: nat, n: nat) returns (ok: bool, jobs: seq<Job>, pi: nat)
    requires start <= |ps|
    ensures ok ==> pi <= |ps| && ReadJobs(ps[start..], n) == Took(jobs, ps[pi..])
    ensures !ok ==> ReadJobs(ps[start..], n) == Rejected
  {
    hide ReadJob, Prepend;
    jobs, pi := [], start;
    var i := 0;
    PrependNone(ReadJobs(ps[start..], n));
    while i < n
      invariant 0 <= i <= n && pi <= |ps|
      invariant ReadJobs(ps[start..], n) == Prepend(jobs, ReadJobs(ps[pi..], n - i))
    {
      RejectedStays(jobs);
      ghost var s := ps[pi..];
      var job;
      ok, job, pi := ParseJob(ps, pi, n - i - 1);
      if !ok { return false, [], pi; }
      JobsStep(s, n - i, job, ps[pi..]);
      PrependOne(jobs, job, ReadJobs(ps[pi..], n - i - 1));
      jobs := jobs + [job];
      i := i + 1;
    }
    PrependEnd(jobs, ps[pi..]);
    ok := true;
  }

  /** client_req_parse_spawn_req */
  method ParseSpawn(ps: seq<Pair>) returns (ok: bool, req: SpawnReq)
    ensures ok <==> ReadSpawn(ps).Took?
    ensures ok ==> ReadSpawn(ps).value == req
  {
    hide ReadList, ReadJobs, Count;
    req := SpawnReq([], []);
    if |ps| < 5 { return false, req; }
    assert ps[1..][0] == ps[1];
    if ps[0].key != "ncmds" { return false, req; }
    var n := Count(ps[0].value);
    if ps[1].key != "preputcount" { return false, req; }
    var m := Count(ps[1].value);
    if |ps| - 2 < (2 * m + 3 * n) % WORD { return false, req; }
    var preput, jobs, pi;
    ok, preput, pi := ParseList(ps, 2, "ppkey", "ppval", m);
    if !ok { return; }
    ok, jobs, pi := ParseJobs(ps, pi, n);
    if ok { req := SpawnReq(preput, jobs); }
  }
}
