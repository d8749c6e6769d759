/**
 Unique switch names (contribs/sgi/netloc_to_topology.c): the table of names
 given to physical ids, the retry loop that makes a new one, and what holds over
 any sequence of lookups.
 */
module SwitchNames {
  import opened Decimal
  import opened Sets

  datatype Entry = Entry(id: int, name: string)

  /** The candidates for a switch next to a node whose name starts with base. */
  function Candidate(base: string, c: nat): string { base + "s" + Numeral(c) }

  lemma CandidatesDiffer(base: string, c: nat, d: nat)
    requires Candidate(base, c) == Candidate(base, d)
    ensures c == d
  {
    var p := base + "s";
    assert Candidate(base, c)[|p|..] == Numeral(c) && Candidate(base, d)[|p|..] == Numeral(d);
    NumeralInjective(c, d);
  }

  predicate Taken(t: seq<Entry>, name: string) { exists i | 0 <= i < |t| :: t[i].name == name }

  // ---- Pigeonhole ----------------------------------------------------------

  ghost function NamesOf(t: seq<Entry>): (s: set<string>)
    ensures |s| <= |t| && forall n :: n in s <==> Taken(t, n)
  {
    if t == [] then {}
    else
      var r := NamesOf(t[..|t| - 1]) + {t[|t| - 1].name};
      assert forall n :: Taken(t, n) <==> Taken(t[..|t| - 1], n) || n == t[|t| - 1].name by {
        forall n ensures Taken(t, n) <==> Taken(t[..|t| - 1], n) || n == t[|t| - 1].name {
          TakenSnoc(t, n);
        }
      }
      r
  }

  lemma TakenSnoc(t: seq<Entry>, n: string)
    requires t != []
    ensures Taken(t, n) <==> Taken(t[..|t| - 1], n) || n == t[|t| - 1].name
  {
    var p := t[..|t| - 1];
    if Taken(t, n) {
      var i :| 0 <= i < |t| && t[i].name == n;
      if i < |p| { assert p[i].name == n; }
    }
    if Taken(p, n) {
      var i :| 0 <= i < |p| && p[i].name == n;
      assert t[i].name == n;
    }
  }

  ghost function FirstCandidates(base: string, c: nat): (s: set<string>)
    ensures |s| == c
    ensures forall n | n in s :: exists d: nat :: d < c && n == Candidate(base, d)
  {
    if c == 0 then {}
    else
      var s := FirstCandidates(base, c - 1);
      assert Candidate(base, c - 1) !in s by { NotYet(base, c - 1); }
      s + {Candidate(base, c - 1)}
  }

  lemma NotYet(base: string, c: nat)
    ensures forall d: nat | d < c :: Candidate(base, d) != Candidate(base, c)
  {
    forall d: nat | d < c ensures Candidate(base, d) != Candidate(base, c) {
      if Candidate(base, d) == Candidate(base, c) { CandidatesDiffer(base, d, c); }
    }
  }

  /** Distinct candidates that are all taken need as many entries. */
  lemma Pigeonhole(t: seq<Entry>, base: string, c: nat)
    requires forall d: nat | d < c :: Taken(t, Candidate(base, d))
    ensures c <= |t|
  {
    var s := FirstCandidates(base, c);
    assert s <= NamesOf(t);
    SubsetSize(s, NamesOf(t));
  }

  // ---- Lookups -------------------------------------------------------------

  /** The first candidate not in the table, from c on. */
  function FreshName(t: seq<Entry>, base: string, c: nat): (n: string)
    requires forall d: nat | d < c :: Taken(t, Candidate(base, d))
    ensures !Taken(t, n)
    decreases |t| - c
  {
    Pigeonhole(t, base, c);
    if Taken(t, Candidate(base, c)) then
      Pigeonhole(t, base, c + 1);
      FreshName(t, base, c + 1)
    else Candidate(base, c)
  }

  function FindId(t: seq<Entry>, id: int): (i: nat)
    ensures i <= |t| && (i < |t| ==> t[i].id == id) && forall k | 0 <= k < i :: t[k].id != id
  {
    if t == [] || t[0].id == id then 0 else 1 + FindId(t[1..], id)
  }

  /** A switch and the base its name would get, if some attached host has data. */
  datatype Lookup = Lookup(id: int, base: string, hasData: bool)

  datatype Answer = Named(name: string) | Skipped

  function Answered(t: seq<Entry>, q: Lookup): (Answer, seq<Entry>) {
    var i := FindId(t, q.id);
    if i < |t| then (Named(t[i].name), t)
    else if !q.hasData then (Skipped, t)
    else
      var n := FreshName(t, q.base, 0);
      (Named(n), t + [Entry(q.id, n)])
  }

  ghost predicate Known(t: seq<Entry>, id: int) { exists i | 0 <= i < |t| :: t[i].id == id }

  /** The base, an s and the number of names tried before, all of them taken. */
  ghost predicate NewName(t: seq<Entry>, base: string, tried: nat, name: string) {
    && name == base + "s" + Numeral(tried) && !Taken(t, name)
    && forall d: nat | d < tried :: Taken(t, base + "s" + Numeral(d))
  }

  lemma {:induction false} FreshIsNew(t: seq<Entry>, base: string, c: nat)
    requires forall d: nat | d < c :: Taken(t, Candidate(base, d))
    ensures exists tried: nat :: NewName(t, base, tried, FreshName(t, base, c))
    decreases |t| - c
  {
    Pigeonhole(t, base, c);
    if Taken(t, Candidate(base, c)) {
      Pigeonhole(t, base, c + 1);
      FreshIsNew(t, base, c + 1);
      assert FreshName(t, base, c) == FreshName(t, base, c + 1);
    } else {
      forall d: nat | d < c ensures Taken(t, base + "s" + Numeral(d)) { assert Taken(t, Candidate(base, d)); }
      assert FreshName(t, base, c) == Candidate(base, c);
      assert NewName(t, base, c, FreshName(t, base, c));
    }
  }

  /** An answer is a name if and only if the switch is known or has data; only a new name is entered, and under its switch. */
  lemma AnsweredIff(t: seq<Entry>, q: Lookup)
    ensures var (a, u) := Answered(t, q);
            && (a.Named? <==> Known(t, q.id) || q.hasData)
            && (if Known(t, q.id) then u == t && Entry(q.id, a.name) in t
                else if q.hasData then
                  && u == t + [Entry(q.id, a.name)]
                  && exists tried: nat :: NewName(t, q.base, tried, a.name)
                else u == t)
  {
    hide FindId, FreshName;
    var i := FindId(t, q.id);
    if i < |t| {
      assert Known(t, q.id) && t[i] == Entry(q.id, t[i].name);
    } else {
      FreshIsNew(t, q.base, 0);
    }
  }

  class Table {
    var table: seq<Entry>

    constructor ()
      ensures table == []
    {
      table := [];
    }

    /** find_switch_name */
    method Find(id: int) returns (j: nat)
      ensures j == FindId(table, id)
    {
      j := 0;
      while j < |table| && table[j].id != id
        invariant 0 <= j <= |table| && forall k | 0 <= k < j :: table[k].id != id
      {
        j := j + 1;
      }
    }

    /** check_unique_switch_name */
    method IsUnique(name: string) returns (unique: bool)
      ensures unique <==> !Taken(table, name)
    {
      for j := 0 to |table|
        invariant forall k | 0 <= k < j :: table[k].name != name
      {
        if table[j].name == name { return false; }
      }
      unique := true;
    }

    /** The naming loop of make_new_switch_name: at most one try per table entry fails. */
    method MakeName(base: string) returns (name: string, collisions: nat)
      ensures name == FreshName(table, base, 0) && collisions <= |table|
      ensures name == Candidate(base, collisions)
    {
      collisions := 0;
      name := Candidate(base, 0);
      var unique := IsUnique(name);
      while !unique
        invariant name == Candidate(base, collisions) && unique == !Taken(table, name)
        invariant forall d: nat | d < collisions :: Taken(table, Candidate(base, d))
        invariant FreshName(table, base, collisions) == FreshName(table, base, 0)
        decreases |table| - collisions
      {
        Pigeonhole(table, base, collisions + 1);
        collisions := collisions + 1;
        name := Candidate(base, collisions);
        unique := IsUnique(name);
      }
      Pigeonhole(table, base, collisions);
    }

    /** get_switch_name */
    method Get(q: Lookup) returns (a: Answer)
      modifies this
      ensures (a, table) == Answered(old(table), q)
    {
      var j := Find(q.id);
      if j != |table| { return Named(table[j].name); }
      if !q.hasData { return Skipped; }
      var name, collisions := MakeName(q.base);
      table := table + [Entry(q.id, name)];
      a := Named(name);
    }
  }

  // ---- Whole runs ----------------------------------------------------------

  /** Ids and names are pairwise distinct. */
  ghost predicate OneToOne(t: seq<Entry>) {
    forall i, j | 0 <= i < j < |t| :: t[i].id != t[j].id && t[i].name != t[j].name
  }

  function RunLookups(t: seq<Entry>, qs: seq<Lookup>): (seq<Answer>, seq<Entry>)
    decreases |qs|
  {
    if qs == [] then ([], t)
    else
      var (a, u) := Answered(t, qs[0]);
      var (as_, v) := RunLookups(u, qs[1..]);
      ([a] + as_, v)
  }

  lemma AnsweredKeeps(t: seq<Entry>, q: Lookup)
    requires OneToOne(t)
    ensures var (a, u) := Answered(t, q);
            && OneToOne(u) && t <= u
            && (a.Named? ==> exists i | 0 <= i < |u| :: u[i] == Entry(q.id, a.name))
  {
    var (a, u) := Answered(t, q);
    var i := FindId(t, q.id);
    if i < |t| {
      assert u[i] == Entry(q.id, a.name);
    } else if q.hasData {
      assert u[|t|] == Entry(q.id, a.name);
      forall k | 0 <= k < |t| ensures t[k].name != a.name { assert !Taken(t, a.name); }
    }
  }

  lemma {:induction false} RunKeeps(t: seq<Entry>, qs: seq<Lookup>)
    requires OneToOne(t)
    ensures var (as_, u) := RunLookups(t, qs);
            && OneToOne(u) && t <= u && |as_| == |qs|
            && forall k | 0 <= k < |qs| && as_[k].Named? :: exists i | 0 <= i < |u| :: u[i] == Entry(qs[k].id, as_[k].name)
    decreases |qs|
  {
    if qs != [] {
      var (a, u) := Answered(t, qs[0]);
      AnsweredKeeps(t, qs[0]);
      RunKeeps(u, qs[1..]);
      var (as_, v) := RunLookups(t, qs);
      var (bs, w) := RunLookups(u, qs[1..]);
      forall k | 0 <= k < |qs| && as_[k].Named? ensures exists i | 0 <= i < |v| :: v[i] == Entry(qs[k].id, as_[k].name) {
        if k == 0 {
          var i :| 0 <= i < |u| && u[i] == Entry(qs[0].id, a.name);
          assert v[i] == u[i];
        } else {
          assert as_[k] == bs[k - 1] && qs[k] == qs[1..][k - 1];
        }
      }
    }
  }

  /** In any run from an empty table, two named answers agree exactly when they are about the same switch. */
  lemma NamesIdentifySwitches(qs: seq<Lookup>, j: nat, k: nat)
    requires j < |qs| && k < |qs| && |RunLookups([], qs).0| == |qs|
    requires RunLookups([], qs).0[j].Named? && RunLookups([], qs).0[k].Named?
    ensures RunLookups([], qs).0[j] == RunLookups([], qs).0[k] <==> qs[j].id == qs[k].id
  {
    RunKeeps([], qs);
    var (as_, u) := RunLookups([], qs);
    var x :| 0 <= x < |u| && u[x] == Entry(qs[j].id, as_[j].name);
    var y :| 0 <= y < |u| && u[y] == Entry(qs[k].id, as_[k].name);
    assert x < y || y < x || x == y;
  }
}
