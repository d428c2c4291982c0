/** The numbers the cache simulator prints, told from the addresses of the trace alone. */
module Addresses {
  import opened Lru
  import opened CacheTrace
  import opened CInts

  // The memory line of a record: its address without the offset in the line.
  function LineOf(g: Geometry, rec: Record): int {
    rec.addr / Pow2(g.b)
  }

  // Record k accesses the cache.
  predicate Accesses(trace: seq<Record>, k: int) {
    0 <= k < |trace| && trace[k].id != 'I'
  }

  // Records k and n access lines of the same set, those whose numbers agree modulo the number of sets.
  predicate SameSet(g: Geometry, trace: seq<Record>, k: nat, n: nat)
    requires k < |trace| && n < |trace|
  {
    LineOf(g, trace[k]) % Pow2(g.s) == LineOf(g, trace[n]) % Pow2(g.s)
  }

  // The distinct lines in the set of record n that are accessed by the records from m up to n.
  ghost function LinesFrom(g: Geometry, trace: seq<Record>, m: nat, n: nat): set<int>
    requires n < |trace|
  {
    set k: nat {:trigger trace[k]} | m <= k < n && Accesses(trace, k) && SameSet(g, trace, k, n) :: LineOf(g, trace[k])
  }

  // The last access to the line of record n before n is record m.
  ghost predicate LastBefore(g: Geometry, trace: seq<Record>, m: nat, n: nat)
    requires n < |trace|
  {
    && m < n && Accesses(trace, m) && LineOf(g, trace[m]) == LineOf(g, trace[n])
    && forall k {:trigger trace[k]} | m < k < n && Accesses(trace, k) :: LineOf(g, trace[k]) != LineOf(g, trace[n])
  }

  // Since then fewer than E other lines of its set were accessed.
  ghost predicate IsHit(g: Geometry, trace: seq<Record>, n: nat)
    requires n < |trace|
  {
    exists m: nat {:trigger LastBefore(g, trace, m, n)} ::
      LastBefore(g, trace, m, n) && |LinesFrom(g, trace, m + 1, n)| < g.E
  }

  ghost function HitRecords(g: Geometry, trace: seq<Record>): set<nat> {
    set n: nat {:trigger trace[n]} | n < |trace| && Accesses(trace, n) && IsHit(g, trace, n)
  }

  ghost function MissRecords(g: Geometry, trace: seq<Record>): set<nat> {
    set n: nat {:trigger trace[n]} | n < |trace| && Accesses(trace, n) && !IsHit(g, trace, n)
  }

  ghost function ModifyRecords(trace: seq<Record>): set<nat> {
    set n: nat {:trigger trace[n]} | n < |trace| && trace[n].id == 'M'
  }

  // The misses that found their set full: as many lines accessed in it as it has ways, or one if it has none.
  ghost function EvictionRecords(g: Geometry, trace: seq<Record>): set<nat> {
    set n: nat {:trigger trace[n]} | n in MissRecords(g, trace) && n < |trace| &&
      |LinesFrom(g, trace, 0, n)| >= (if g.E == 0 then 1 else g.E)
  }

  // ---- Lines, sets and tags ------------------------------------------------------

  lemma {:induction false} DivAdd(x: nat, a: nat, b: nat)
    ensures x / Pow2(a) / Pow2(b) == x / Pow2(a + b)
  {
    ShrIs(x, a);
    ShrIs(Shr(x, a), b);
    ShrShr(x, a, b);
    ShrIs(x, a + b);
  }

  lemma {:induction false} ShrShr(x: nat, a: nat, b: nat)
    ensures Shr(Shr(x, a), b) == Shr(x, a + b)
  {
    if a > 0 {
      ShrShr(x / 2, a - 1, b);
    }
  }

  lemma QuotientIs(x: int, c: nat)
    requires c > 0 && x % c >= 0
    ensures x == LineNumber(x / c, c, x % c)
  {
  }

  lemma SameLine(g: Geometry, a: Record, b: Record)
    ensures LineOf(g, a) == LineOf(g, b)
      <==> SetIndex(g, a.addr) == SetIndex(g, b.addr) && TagOf(g, a.addr) == TagOf(g, b.addr)
  {
    LineIs(g, a);
    LineIs(g, b);
  }

  /** A line is in the set of its residue, with its quotient as the tag. */
  lemma LineIs(g: Geometry, rec: Record)
    ensures SetIndex(g, rec.addr) == LineOf(g, rec) % Pow2(g.s)
    ensures TagOf(g, rec.addr) == LineOf(g, rec) / Pow2(g.s)
    ensures LineOf(g, rec) == LineNumber(TagOf(g, rec.addr), Pow2(g.s), SetIndex(g, rec.addr))
  {
    ShrIs(rec.addr, g.b);
    ShrIs(rec.addr, g.s + g.b);
    DivAdd(rec.addr, g.b, g.s);
    assert g.b + g.s == g.s + g.b;
    QuotientIs(LineOf(g, rec), Pow2(g.s));
  }

  lemma {:induction false} ProjectAppend(g: Geometry, xs: seq<Record>, ys: seq<Record>, i: nat)
    ensures Project(g, xs + ys, i) == Project(g, xs, i) + Project(g, ys, i)
  {
    if ys == [] {
      assert xs + ys == xs;
    } else {
      var zs, y := ys[..|ys| - 1], ys[|ys| - 1];
      assert (xs + ys)[..|xs + ys| - 1] == xs + zs && (xs + ys)[|xs + ys| - 1] == y;
      ProjectAppend(g, xs, zs, i);
    }
  }

  lemma {:induction false} ProjectHas(g: Geometry, xs: seq<Record>, i: nat, t: nat)
    ensures t in Project(g, xs, i) <==>
      exists k {:trigger xs[k]} :: Accesses(xs, k) && SetIndex(g, xs[k].addr) == i && TagOf(g, xs[k].addr) == t
  {
    if xs != [] {
      var zs, y := xs[..|xs| - 1], xs[|xs| - 1];
      ProjectHas(g, zs, i, t);
      assert forall k {:trigger xs[k]} | 0 <= k < |zs| :: xs[k] == zs[k];
    }
  }

  // The line with tag t in set i of c.
  function LineNumber(t: int, c: nat, i: nat): int {
    t * c + i
  }

  lemma Apart(x: int, y: int, c: nat, i: nat)
    requires c > 0 && x < y
    ensures LineNumber(x, c, i) < LineNumber(y, c, i)
  {
    var d := y - x;
    assert y * c == x * c + d * c;
    assert d * c == (d - 1) * c + c;
    assert (d - 1) * c >= 0;
  }

  ghost function Numbered(S: set<nat>, c: nat, i: nat): set<int> {
    set x {:trigger LineNumber(x, c, i)} | x in S :: LineNumber(x, c, i)
  }

  lemma {:induction false} NumberedSize(S: set<nat>, c: nat, i: nat)
    requires c > 0
    ensures |Numbered(S, c, i)| == |S|
    decreases |S|
  {
    if S == {} {
      assert Numbered(S, c, i) == {};
    } else {
      var x := Pick(S);
      var R := S - {x};
      NumberedSize(R, c, i);
      forall y | y in R ensures LineNumber(y, c, i) != LineNumber(x, c, i) {
        Apart(if x < y then x else y, if x < y then y else x, c, i);
      }
      assert S == R + {x};
      assert Numbered(S, c, i) == Numbered(R, c, i) + {LineNumber(x, c, i)};
    }
  }

  lemma Pick<T>(S: set<T>) returns (x: T)
    requires S != {}
    ensures x in S
  {
    x :| x in S;
  }

  /** The lines accessed in a set between two records are as many as the tags. */
  lemma LinesAreTags(g: Geometry, trace: seq<Record>, m: nat, n: nat)
    requires m <= n < |trace|
    ensures |LinesFrom(g, trace, m, n)| == |TagSet(Project(g, trace[m..n], SetIndex(g, trace[n].addr)))|
  {
    var i, c, xs := SetIndex(g, trace[n].addr), Pow2(g.s), trace[m..n];
    var T := TagSet(Project(g, xs, i));
    forall x ensures x in LinesFrom(g, trace, m, n) <==> x in Numbered(T, c, i) {
      LineHasTag(g, trace, m, n, T, x);
      TagHasLine(g, trace, m, n, T, x);
    }
    assert LinesFrom(g, trace, m, n) == Numbered(T, c, i);
    NumberedSize(T, c, i);
  }

  lemma LineHasTag(g: Geometry, trace: seq<Record>, m: nat, n: nat, T: set<nat>, x: int)
    requires m <= n < |trace| && T == TagSet(Project(g, trace[m..n], SetIndex(g, trace[n].addr)))
    ensures x in LinesFrom(g, trace, m, n) ==> x in Numbered(T, Pow2(g.s), SetIndex(g, trace[n].addr))
  {
    if x in LinesFrom(g, trace, m, n) {
      var i, xs := SetIndex(g, trace[n].addr), trace[m..n];
      var k: nat :| m <= k < n && Accesses(trace, k) && SameSet(g, trace, k, n) && LineOf(g, trace[k]) == x;
      LineIs(g, trace[n]);
      LineIs(g, trace[k]);
      assert xs[k - m] == trace[k];
      ProjectHas(g, xs, i, TagOf(g, trace[k].addr));
    }
  }

  lemma TagHasLine(g: Geometry, trace: seq<Record>, m: nat, n: nat, T: set<nat>, x: int)
    requires m <= n < |trace| && T == TagSet(Project(g, trace[m..n], SetIndex(g, trace[n].addr)))
    ensures x in Numbered(T, Pow2(g.s), SetIndex(g, trace[n].addr)) ==> x in LinesFrom(g, trace, m, n)
  {
    var i, xs := SetIndex(g, trace[n].addr), trace[m..n];
    if x in Numbered(T, Pow2(g.s), i) {
      var t :| t in T && x == LineNumber(t, Pow2(g.s), i);
      ProjectHas(g, xs, i, t);
      var k :| Accesses(xs, k) && SetIndex(g, xs[k].addr) == i && TagOf(g, xs[k].addr) == t;
      assert trace[m + k] == xs[k];
      LineIs(g, trace[n]);
      LineIs(g, xs[k]);
    }
  }

  // ---- One access ----------------------------------------------------------------

  lemma NotSince(g: Geometry, trace: seq<Record>, m: nat, n: nat)
    requires m <= n < |trace|
    ensures TagOf(g, trace[n].addr) in Project(g, trace[m..n], SetIndex(g, trace[n].addr)) <==>
      exists k {:trigger trace[k]} :: m <= k < n && Accesses(trace, k) && LineOf(g, trace[k]) == LineOf(g, trace[n])
  {
    var i, t, xs := SetIndex(g, trace[n].addr), TagOf(g, trace[n].addr), trace[m..n];
    ProjectHas(g, xs, i, t);
    if t in Project(g, xs, i) {
      var k :| Accesses(xs, k) && SetIndex(g, xs[k].addr) == i && TagOf(g, xs[k].addr) == t;
      SameLine(g, xs[k], trace[n]);
      assert trace[m + k] == xs[k];
    }
    if k :| m <= k < n && Accesses(trace, k) && LineOf(g, trace[k]) == LineOf(g, trace[n]) {
      SameLine(g, trace[k], trace[n]);
      assert xs[k - m] == trace[k];
    }
  }

  lemma {:induction false} FindLast(g: Geometry, trace: seq<Record>, n: nat, j: nat) returns (m: nat)
    requires j <= n < |trace|
    requires forall k {:trigger trace[k]} | j <= k < n && Accesses(trace, k) ::
      LineOf(g, trace[k]) != LineOf(g, trace[n])
    ensures m < n ==> LastBefore(g, trace, m, n)
    ensures m >= n ==>
      forall k {:trigger trace[k]} | 0 <= k < n && Accesses(trace, k) :: LineOf(g, trace[k]) != LineOf(g, trace[n])
    decreases j
  {
    if j == 0 {
      m := n;
    } else if Accesses(trace, j - 1) && LineOf(g, trace[j - 1]) == LineOf(g, trace[n]) {
      m := j - 1;
    } else {
      m := FindLast(g, trace, n, j - 1);
    }
  }

  lemma HitAfter(g: Geometry, trace: seq<Record>, m: nat, n: nat)
    requires n < |trace| && LastBefore(g, trace, m, n) && g.E >= 1
    ensures Hits(g.E, Run(g, trace[..n]).sets[SetIndex(g, trace[n].addr)], TagOf(g, trace[n].addr))
      <==> |LinesFrom(g, trace, m + 1, n)| < g.E
  {
    var i, t := SetIndex(g, trace[n].addr), TagOf(g, trace[n].addr);
    var xs, ys := Project(g, trace[..m], i), Project(g, trace[m + 1..n], i);
    SameLine(g, trace[m], trace[n]);
    assert Project(g, [trace[m]], i) == [t] by {
      assert [trace[m]][..0] == [] && Project(g, [], i) == [];
    }
    assert trace[..m + 1] == trace[..m] + [trace[m]] && trace[..n] == trace[..m + 1] + trace[m + 1..n];
    ProjectAppend(g, trace[..m], [trace[m]], i);
    ProjectAppend(g, trace[..m + 1], trace[m + 1..n], i);
    NotSince(g, trace, m + 1, n);
    HoldsMostRecent(g, trace[..n], i);
    HitSplit(g.E, xs, t, ys);
    LinesAreTags(g, trace, m + 1, n);
  }

  lemma LastIsUnique(g: Geometry, trace: seq<Record>, m: nat, k: nat, n: nat)
    requires n < |trace| && LastBefore(g, trace, m, n) && LastBefore(g, trace, k, n)
    ensures m == k
  {
  }

  /** What the simulator counts as a hit is one. */
  lemma HitsAreHits(g: Geometry, trace: seq<Record>, n: nat)
    requires n < |trace|
    ensures Hits(g.E, Run(g, trace[..n]).sets[SetIndex(g, trace[n].addr)], TagOf(g, trace[n].addr))
      <==> IsHit(g, trace, n)
  {
    var i, t := SetIndex(g, trace[n].addr), TagOf(g, trace[n].addr);
    var m := FindLast(g, trace, n, n);
    if m < n {
      if g.E >= 1 {
        HitAfter(g, trace, m, n);
      }
      forall k: nat | LastBefore(g, trace, k, n) ensures k == m {
        LastIsUnique(g, trace, m, k, n);
      }
    } else {
      NotSince(g, trace, 0, n);
      assert trace[0..n] == trace[..n];
      HoldsMostRecent(g, trace[..n], i);
      RecencyDistinct(Project(g, trace[..n], i));
      TakeIsPart(Recency(Project(g, trace[..n], i)), Ways(g.E), t);
    }
  }

  lemma TakeIsPart(u: seq<nat>, n: nat, t: nat)
    requires t !in u
    ensures t !in Take(u, n)
  {
  }

  lemma FullWhenMany(g: Geometry, trace: seq<Record>, n: nat)
    requires n < |trace|
    ensures |Run(g, trace[..n]).sets[SetIndex(g, trace[n].addr)]| >= Ways(g.E) <==>
      |LinesFrom(g, trace, 0, n)| >= if g.E == 0 then 1 else g.E
  {
    var i := SetIndex(g, trace[n].addr);
    HoldsMostRecent(g, trace[..n], i);
    RecencyCount(Project(g, trace[..n], i));
    LinesAreTags(g, trace, 0, n);
    assert trace[0..n] == trace[..n];
  }

  // ---- The counters --------------------------------------------------------------

  // What record n is does not depend on what follows.
  lemma PrefixHit(g: Geometry, xs: seq<Record>, y: Record, n: nat)
    requires n < |xs|
    ensures IsHit(g, xs + [y], n) <==> IsHit(g, xs, n)
    ensures LinesFrom(g, xs + [y], 0, n) == LinesFrom(g, xs, 0, n)
  {
    var zs := xs + [y];
    assert forall k {:trigger zs[k]} {:trigger xs[k]} | 0 <= k < |xs| :: zs[k] == xs[k];
    forall m: nat ensures LastBefore(g, zs, m, n) <==> LastBefore(g, xs, m, n)
      ensures LinesFrom(g, zs, m, n) == LinesFrom(g, xs, m, n)
    {
    }
  }

  /** The printed numbers, from the addresses. */
  lemma {:induction false} CountersAre(g: Geometry, trace: seq<Record>)
    ensures Run(g, trace).hits == |HitRecords(g, trace)| + |ModifyRecords(trace)|
    ensures Run(g, trace).misses == |MissRecords(g, trace)|
    ensures Run(g, trace).evictions == |EvictionRecords(g, trace)|
  {
    if trace == [] {
      assert HitRecords(g, trace) == {} && ModifyRecords(trace) == {} && MissRecords(g, trace) == {};
      assert EvictionRecords(g, trace) == {};
    } else {
      var n := |trace| - 1;
      CountersAre(g, trace[..n]);
      StepCounts(g, trace, n);
      assert trace == trace[..n] + [trace[n]];
      RecordsGrow(g, trace[..n], trace[n]);
    }
  }

  // What the last record adds to the counters.
  lemma StepCounts(g: Geometry, trace: seq<Record>, n: nat)
    requires n + 1 == |trace|
    ensures var st, st', y := Run(g, trace[..n]), Run(g, trace), trace[n];
      && st'.hits == st.hits + Count(y.id != 'I' && IsHit(g, trace, n)) + Count(y.id == 'M')
      && st'.misses == st.misses + Count(y.id != 'I' && !IsHit(g, trace, n))
      && st'.evictions == st.evictions + Count(n in EvictionRecords(g, trace))
  {
    HitsAreHits(g, trace, n);
    FullWhenMany(g, trace, n);
  }

  lemma RecordsGrow(g: Geometry, xs: seq<Record>, y: Record)
    ensures var zs, n := xs + [y], |xs|;
      && |HitRecords(g, zs)| == |HitRecords(g, xs)| + Count(y.id != 'I' && IsHit(g, zs, n))
      && |MissRecords(g, zs)| == |MissRecords(g, xs)| + Count(y.id != 'I' && !IsHit(g, zs, n))
      && |ModifyRecords(zs)| == |ModifyRecords(xs)| + Count(y.id == 'M')
      && |EvictionRecords(g, zs)| == |EvictionRecords(g, xs)| + Count(n in EvictionRecords(g, zs))
  {
    var zs, n := xs + [y], |xs|;
    forall k: nat | k < n ensures zs[k] == xs[k] && (IsHit(g, zs, k) <==> IsHit(g, xs, k))
      ensures LinesFrom(g, zs, 0, k) == LinesFrom(g, xs, 0, k)
    {
      PrefixHit(g, xs, y, k);
    }
    Grows(HitRecords(g, xs), HitRecords(g, zs), n);
    Grows(MissRecords(g, xs), MissRecords(g, zs), n);
    Grows(ModifyRecords(xs), ModifyRecords(zs), n);
    Grows(EvictionRecords(g, xs), EvictionRecords(g, zs), n);
  }

  lemma Grows(A: set<nat>, B: set<nat>, n: nat)
    requires n !in A && forall k: nat :: k in B <==> k in A || (k == n && n in B)
    ensures |B| == |A| + Count(n in B)
  {
    assert B == if n in B then A + {n} else A;
  }
}
