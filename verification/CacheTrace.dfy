/** What the cache simulator computes for a whole trace, and what follows from it. */
module CacheTrace {
  import opened Lru
  import opened CInts

  // One line of a trace: 'I' fetches are ignored; 'M' is a load followed by a store.
  datatype Record = Record(id: char, addr: nat)

  // 2^s sets of E lines of 2^b bytes.
  datatype Geometry = Geometry(s: nat, E: nat, b: nat)

  function SetIndex(g: Geometry, addr: nat): (i: nat)
    ensures i < Pow2(g.s)
  {
    Shr(addr, g.b) % Pow2(g.s)
  }

  function TagOf(g: Geometry, addr: nat): nat {
    Shr(addr, g.s + g.b)
  }

  datatype Stats = Stats(sets: seq<seq<nat>>, hits: nat, misses: nat, evictions: nat)

  function Count(b: bool): nat {
    if b then 1 else 0
  }

  function EmptySets(n: nat): (sets: seq<seq<nat>>)
    ensures |sets| == n && forall i | 0 <= i < n :: sets[i] == []
  {
    if n == 0 then [] else [[]] + EmptySets(n - 1)
  }

  function Initial(g: Geometry): Stats {
    Stats(EmptySets(Pow2(g.s)), 0, 0, 0)
  }

  // The effect of one record.
  function Step(g: Geometry, st: Stats, rec: Record): Stats
    requires |st.sets| == Pow2(g.s)
  {
    if rec.id == 'I' then st
    else
      var i, t := SetIndex(g, rec.addr), TagOf(g, rec.addr);
      var hit := Hits(g.E, st.sets[i], t);
      Stats(st.sets[i := Access(g.E, st.sets[i], t)],
            st.hits + Count(hit) + Count(rec.id == 'M'),
            st.misses + Count(!hit),
            st.evictions + Count(Evicts(g.E, st.sets[i], t)))
  }

  // The statistics of a whole trace.
  function Run(g: Geometry, trace: seq<Record>): (st: Stats)
    ensures |st.sets| == Pow2(g.s)
  {
    if trace == [] then Initial(g) else Step(g, Run(g, trace[..|trace| - 1]), trace[|trace| - 1])
  }

  // The tags accessed in set i.
  function Project(g: Geometry, trace: seq<Record>, i: nat): seq<nat> {
    if trace == [] then []
    else
      var rec := trace[|trace| - 1];
      Project(g, trace[..|trace| - 1], i)
        + if rec.id != 'I' && SetIndex(g, rec.addr) == i then [TagOf(g, rec.addr)] else []
  }

  /** Every set holds its most recently used tags, as many as it has ways. */
  lemma {:induction false} HoldsMostRecent(g: Geometry, trace: seq<Record>, i: nat)
    requires i < Pow2(g.s)
    ensures Run(g, trace).sets[i] == Take(Recency(Project(g, trace, i)), Ways(g.E))
  {
    if trace != [] {
      var before, rec := trace[..|trace| - 1], trace[|trace| - 1];
      HoldsMostRecent(g, before, i);
      var xs := Project(g, before, i);
      if rec.id != 'I' && SetIndex(g, rec.addr) == i {
        var t := TagOf(g, rec.addr);
        RecencyDistinct(xs);
        AccessIsTouch(g.E, Recency(xs), t);
        RecencyAppend(xs, t);
      } else {
        assert xs + [] == xs;
      }
    }
  }

  /** The hit rule on whole traces. */
  lemma HitsExactlyWhenRecent(g: Geometry, trace: seq<Record>, i: nat, t: nat)
    requires i < Pow2(g.s)
    ensures Hits(g.E, Run(g, trace).sets[i], t) <==> exists k: nat :: RecentAt(g.E, Project(g, trace, i), t, k)
  {
    HoldsMostRecent(g, trace, i);
    HitRule(g.E, Project(g, trace, i), t);
  }

  lemma RecencyEmpty(xs: seq<nat>)
    ensures Recency(xs) == [] <==> xs == []
  {
  }

  /** A set never holds more than its E lines, unless E is 0: then it holds one as soon as it was accessed. */
  lemma FitsItsWays(g: Geometry, trace: seq<Record>, i: nat)
    requires i < Pow2(g.s)
    ensures |Run(g, trace).sets[i]| <= g.E <==> g.E >= 1 || Project(g, trace, i) == []
  {
    HoldsMostRecent(g, trace, i);
    RecencyEmpty(Project(g, trace, i));
  }

  /** One load with no ways, after which the set holds a line. */
  lemma OverfullAtZeroWays() returns (g: Geometry, trace: seq<Record>)
    ensures g.E == 0 && |trace| == 1 && |Run(g, trace).sets[0]| == 1
  {
    g, trace := Geometry(0, 0, 0), [Record('L', 0)];
    assert trace[..0] == [] && Project(g, [], 0) == [];
    assert SetIndex(g, 0) == 0 && Project(g, trace, 0) == [TagOf(g, 0)];
    HoldsMostRecent(g, trace, 0);
    FitsItsWays(g, trace, 0);
  }

  lemma TakeLess(u: seq<nat>, m: nat, n: nat, t: nat)
    requires m <= n && t in Take(u, m)
    ensures t in Take(u, n)
  {
    var k :| 0 <= k < |Take(u, m)| && Take(u, m)[k] == t;
    assert Take(u, n)[k] == t;
  }

  lemma {:induction false} ProjectIgnoresWays(g: Geometry, E: nat, trace: seq<Record>, i: nat)
    ensures Project(g.(E := E), trace, i) == Project(g, trace, i)
  {
    if trace != [] {
      ProjectIgnoresWays(g, E, trace[..|trace| - 1], i);
    }
  }

  /** Inclusion: after any trace, what a cache holds is held by every cache with more ways. */
  lemma Inclusion(g: Geometry, E: nat, trace: seq<Record>, i: nat, t: nat)
    requires g.E <= E && i < Pow2(g.s)
    ensures t in Run(g, trace).sets[i] ==> t in Run(g.(E := E), trace).sets[i]
  {
    HoldsMostRecent(g, trace, i);
    HoldsMostRecent(g.(E := E), trace, i);
    ProjectIgnoresWays(g, E, trace, i);
    if t in Run(g, trace).sets[i] {
      TakeLess(Recency(Project(g, trace, i)), Ways(g.E), Ways(E), t);
    }
  }

  /** More ways never cost a hit and never add a miss, on any trace. */
  lemma {:induction false} MoreWaysNeverHurt(g: Geometry, E: nat, trace: seq<Record>)
    requires g.E <= E
    ensures Run(g, trace).hits <= Run(g.(E := E), trace).hits
    ensures Run(g, trace).misses >= Run(g.(E := E), trace).misses
  {
    if trace != [] {
      var before, rec := trace[..|trace| - 1], trace[|trace| - 1];
      MoreWaysNeverHurt(g, E, before);
      Inclusion(g, E, before, SetIndex(g, rec.addr), TagOf(g, rec.addr));
    }
  }

  // How many records of each kind a trace has.
  function Accesses(trace: seq<Record>): nat {
    if trace == [] then 0 else Accesses(trace[..|trace| - 1]) + Count(trace[|trace| - 1].id != 'I')
  }

  function Modifies(trace: seq<Record>): nat {
    if trace == [] then 0 else Modifies(trace[..|trace| - 1]) + Count(trace[|trace| - 1].id == 'M')
  }

  function Lines(sets: seq<seq<nat>>): nat {
    if sets == [] then 0 else |sets[0]| + Lines(sets[1..])
  }

  lemma {:induction false} LinesUpdate(sets: seq<seq<nat>>, i: nat, r: seq<nat>)
    requires i < |sets|
    ensures Lines(sets[i := r]) + |sets[i]| == Lines(sets) + |r|
  {
    if i > 0 {
      LinesUpdate(sets[1..], i - 1, r);
      assert sets[i := r][1..] == sets[1..][i - 1 := r];
    } else {
      assert sets[i := r][1..] == sets[1..];
    }
  }

  lemma {:induction false} LinesEmpty(n: nat)
    ensures Lines(EmptySets(n)) == 0
  {
    if n > 0 {
      assert EmptySets(n)[1..] == EmptySets(n - 1);
      LinesEmpty(n - 1);
    }
  }

  lemma AccessSize(E: nat, u: seq<nat>, t: nat)
    requires Distinct(u)
    ensures var r := Take(u, Ways(E));
      |Access(E, r, t)| + Count(Evicts(E, r, t)) == |r| + Count(!Hits(E, r, t))
  {
    var r := Take(u, Ways(E));
    assert u == r + u[|r|..];
    PrefixDistinct(r, u[|r|..]);
    WithoutFacts(r, t);
  }

  /** Every access is a hit or a miss, and an 'M' hits once more; what was missed is resident or was evicted. */
  lemma {:induction false} Accounting(g: Geometry, trace: seq<Record>)
    ensures var st := Run(g, trace);
      && st.hits + st.misses == Accesses(trace) + Modifies(trace)
      && st.misses == st.evictions + Lines(st.sets)
  {
    if trace == [] {
      LinesEmpty(Pow2(g.s));
    } else {
      var before, rec := trace[..|trace| - 1], trace[|trace| - 1];
      Accounting(g, before);
      if rec.id != 'I' {
        var st, i, t := Run(g, before), SetIndex(g, rec.addr), TagOf(g, rec.addr);
        HoldsMostRecent(g, before, i);
        RecencyDistinct(Project(g, before, i));
        AccessSize(g.E, Recency(Project(g, before, i)), t);
        LinesUpdate(st.sets, i, Access(g.E, st.sets[i], t));
      }
    }
  }
}
