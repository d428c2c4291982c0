/** The cache simulator of csim.c: per set, a linked list of lines with timestamps. */
module Csim {
  import L = Lru
  import A = Addresses
  import opened Sequences
  import opened CacheTrace
  import opened CInts

  class Line {
    var tag: nat
    var pri: int
    var next: Line?

    constructor (tag: nat, pri: int)
      ensures this.tag == tag && this.pri == pri && next == null
    {
      this.tag := tag;
      this.pri := pri;
      next := null;
    }
  }

  function Cut<T>(s: seq<T>, p: nat): (r: seq<T>)
    requires p < |s|
    ensures |r| == |s| - 1 && forall k {:trigger r[k]} | 0 <= k < |r| :: r[k] == if k < p then s[k] else s[k + 1]
  {
    s[..p] + s[p + 1..]
  }

  function ToFront<T>(x: T, s: seq<T>, p: nat): (r: seq<T>)
    requires p < |s|
    ensures |r| == |s| && r[0] == x
    ensures forall k {:trigger r[k]} | 0 < k < |r| :: r[k] == if k <= p then s[k - 1] else s[k]
  {
    [x] + Cut(s, p)
  }

  // The same lines in another order.
  ghost predicate SameLines(a: seq<Line>, b: seq<Line>) {
    && |a| == |b|
    && (forall x {:trigger Has(b, x)} | x in a :: Has(b, x))
    && forall x {:trigger Has(a, x)} | x in b :: Has(a, x)
  }

  ghost predicate Has(s: seq<Line>, x: Line) {
    exists k :: 0 <= k < |s| && s[k] == x
  }

  // Strictly falling from the clock, and positive.
  ghost predicate Falling(stamps: seq<int>, clock: int) {
    && (stamps != [] ==> stamps[0] == clock)
    && (forall k {:trigger stamps[k]} | 0 <= k < |stamps| :: 1 <= stamps[k] <= clock)
    && forall j, k {:trigger stamps[j], stamps[k]} | 0 <= j < k < |stamps| :: stamps[j] > stamps[k]
  }

  lemma SameLinesToFront(a: seq<Line>, b: seq<Line>, p: nat)
    requires SameLines(a, b) && p < |b|
    ensures SameLines(a, ToFront(b[p], b, p))
  {
    var c := ToFront(b[p], b, p);
    forall x | x in a ensures Has(c, x) {
      assert Has(b, x);
      var j :| 0 <= j < |b| && b[j] == x;
      assert c[if j == p then 0 else if j < p then j + 1 else j] == x;
    }
    forall x | x in c ensures Has(a, x) {
      var k :| 0 <= k < |c| && c[k] == x;
      assert b[if k == 0 then p else if k <= p then k - 1 else k] == x;
      assert x in b;
    }
  }

  lemma FallingToFront(stamps: seq<int>, clock: int, p: nat)
    requires Falling(stamps, clock) && p < |stamps|
    ensures Falling(ToFront(clock + 1, stamps, p), clock + 1)
  {
  }

  lemma DistinctToFront(u: seq<nat>, t: nat, p: nat)
    requires L.Distinct(u) && p < |u| && t !in Cut(u, p)
    ensures L.Distinct(ToFront(t, u, p))
  {
    var r := ToFront(t, u, p);
    forall j | 0 <= j < |Cut(u, p)| ensures Cut(u, p)[j] != t {
    }
    forall j, k | 0 <= j < k < |r| ensures r[j] != r[k] {
      assert r[k] == Cut(u, p)[k - 1];
      assert j > 0 ==> r[j] == Cut(u, p)[j - 1];
    }
  }

  /** One set: cache[setIndex] and initSet[setIndex]. */
  class CacheSet {
    var head: Line?
    var clock: int
    // The lines in list order; the same lines, most recent first; and the latter's timestamps and tags.
    ghost var nodes: seq<Line>
    ghost var lru: seq<Line>
    ghost var stamps: seq<int>
    ghost var recent: seq<nat>

    // The next links spell out nodes.
    ghost predicate Chained()
      reads this, nodes
    {
      && head == (if nodes == [] then null else nodes[0])
      && (forall k: nat {:trigger LinkedAt(nodes, k)} | k < |nodes| :: LinkedAt(nodes, k))
      && forall j, k {:trigger nodes[j], nodes[k]} | 0 <= j < k < |nodes| :: nodes[j] != nodes[k]
    }

    static ghost predicate LinkedAt(nodes: seq<Line>, k: nat)
      requires k < |nodes|
      reads nodes
    {
      nodes[k].next == if k + 1 < |nodes| then nodes[k + 1] else null
    }

    ghost predicate Stamped()
      reads this, nodes
    {
      && |lru| == |stamps| == |recent|
      && forall k {:trigger lru[k]} | 0 <= k < |lru| ::
           lru[k] in nodes && lru[k].tag == recent[k] && lru[k].pri == stamps[k]
    }

    ghost predicate Valid()
      reads this, nodes
    {
      && Chained()
      && Stamped()
      && SameLines(nodes, lru)
      && Falling(stamps, clock)
      && L.Distinct(recent)
      && clock >= 0
      && (clock == 0 <==> nodes == [])
    }

    constructor ()
      ensures Valid() && recent == [] && fresh(this) && nodes == []
    {
      head := null;
      clock := 0;
      nodes, lru, stamps, recent := [], [], [], [];
    }

    /** Give the line at position p of lru the newest timestamp and a tag that no other line has. */
    method Promote(x: Line, tag: nat, ghost p: nat)
      requires Valid() && p < |lru| && x == lru[p] && tag !in Cut(recent, p)
      modifies this, x`pri, x`tag
      ensures Valid() && nodes == old(nodes)
      ensures recent == ToFront(tag, old(recent), p)
    {
      SameLinesToFront(nodes, lru, p);
      FallingToFront(stamps, clock, p);
      DistinctToFront(recent, tag, p);
      assert nodes != [];
      Restamp(x, tag, p);
    }

    method Stamp(x: Line, tag: nat)
      requires Chained()
      modifies this`clock, x`pri, x`tag
      ensures Chained() && clock == old(clock) + 1 && x.pri == clock && x.tag == tag
    {
      clock := clock + 1;
      x.pri := clock;
      x.tag := tag;
      forall k: nat | k < |nodes| ensures LinkedAt(nodes, k) {
        assert old(LinkedAt(nodes, k));
      }
    }

    method Restamp(x: Line, tag: nat, ghost p: nat)
      requires Stamped() && Falling(stamps, clock) && p < |lru| && x == lru[p] && Chained()
      modifies this, x`pri, x`tag
      ensures Stamped() && Chained() && nodes == old(nodes) && clock == old(clock) + 1
      ensures lru == ToFront(x, old(lru), p)
      ensures stamps == ToFront(clock, old(stamps), p)
      ensures recent == ToFront(tag, old(recent), p)
    {
      forall k | 0 <= k < |lru| && k != p ensures lru[k] != x {
        assert lru[k].pri == stamps[k] && x.pri == stamps[p];
      }
      Stamp(x, tag);
      Reorder(x, tag, p);
    }

    ghost method Reorder(x: Line, tag: nat, p: nat)
      requires Chained() && |lru| == |stamps| == |recent| && p < |lru| && x == lru[p] && x in nodes
      requires x.tag == tag && x.pri == clock
      requires forall k {:trigger lru[k]} | 0 <= k < |lru| && k != p ::
        lru[k] in nodes && lru[k].tag == recent[k] && lru[k].pri == stamps[k]
      modifies this`lru, this`stamps, this`recent
      ensures Stamped() && Chained()
      ensures lru == ToFront(x, old(lru), p)
      ensures stamps == ToFront(clock, old(stamps), p)
      ensures recent == ToFront(tag, old(recent), p)
    {
      ghost var u, v, r := ToFront(x, lru, p), ToFront(clock, stamps, p), ToFront(tag, recent, p);
      forall k {:trigger u[k]} | 0 <= k < |u| ensures u[k] in nodes && u[k].tag == r[k] && u[k].pri == v[k] {
        if k > 0 {
          assert u[k] == lru[if k <= p then k - 1 else k];
        }
      }
      lru, stamps, recent := u, v, r;
    }

    // Case 1: the first line of the set.
    method InsertFirst(tag: nat)
      requires Valid() && nodes == []
      modifies this
      ensures Valid() && |nodes| == 1 && fresh(nodes[0]) && recent == [tag]
    {
      clock := clock + 1;
      var temp := new Line(tag, clock);
      head := temp;
      nodes, lru, stamps, recent := [temp], [temp], [clock], [tag];
    }

    /** Append a new line to the list. */
    method InsertInLine(tag: nat, pri: int) returns (temp: Line)
      requires Chained() && nodes != []
      modifies this`nodes, nodes`next
      ensures fresh(temp) && temp.tag == tag && temp.pri == pri && temp !in old(nodes)
      ensures nodes == old(nodes) + [temp] && Chained()
    {
      temp := new Line(tag, pri);
      var start := head;
      ghost var k, nodes0 := 0, nodes;
      while start.next != null
        invariant 0 <= k < |nodes| && start == nodes[k]
        decreases |nodes| - k
      {
        assert LinkedAt(nodes, k);
        start := start.next;
        k := k + 1;
      }
      assert LinkedAt(nodes, k);
      start.next := temp;
      nodes := nodes + [temp];
      forall k: nat | k < |nodes| ensures LinkedAt(nodes, k) {
        assert k < |nodes0| ==> old(LinkedAt(nodes0, k));
      }
    }

    // Case 2, miss with room: the new line is the most recent.
    method InsertNewest(tag: nat)
      requires Valid() && nodes != [] && tag !in recent
      modifies this, nodes
      ensures Valid() && |nodes| == |old(nodes)| + 1 && old(nodes) <= nodes && fresh(nodes[|old(nodes)|])
      ensures recent == [tag] + old(recent)
    {
      ghost var nodes0, lru0 := nodes, lru;
      forall k | 0 <= k < |lru0| ensures lru0[k] in nodes0 {
        assert lru0[k] in lru0 && Has(nodes0, lru0[k]);
      }
      var temp := InsertInLine(tag, clock + 1);
      clock := clock + 1;
      lru, stamps, recent := [temp] + lru, [clock] + stamps, [tag] + recent;
      InsertedSame(nodes0, lru0, temp);
      InsertedOrder(stamps[1..], recent[1..], clock - 1, tag);
    }

    static lemma InsertedSame(a: seq<Line>, b: seq<Line>, x: Line)
      requires SameLines(a, b)
      ensures SameLines(a + [x], [x] + b)
    {
      forall y | y in a + [x] ensures Has([x] + b, y) {
        if y == x {
          assert ([x] + b)[0] == y;
        } else {
          assert Has(b, y);
          var j :| 0 <= j < |b| && b[j] == y;
          assert ([x] + b)[j + 1] == y;
        }
      }
      forall y | y in [x] + b ensures Has(a + [x], y) {
        if y == x {
          assert (a + [x])[|a|] == y;
        } else {
          assert Has(a, y);
          var j :| 0 <= j < |a| && a[j] == y;
          assert (a + [x])[j] == y;
        }
      }
    }

    static lemma InsertedOrder(stamps: seq<int>, recent: seq<nat>, clock: int, tag: nat)
      requires Falling(stamps, clock) && clock >= 0 && L.Distinct(recent) && tag !in recent
      ensures Falling([clock + 1] + stamps, clock + 1) && L.Distinct([tag] + recent)
    {
    }

    /** Overwrite the line with timestamp `pri`, which is the oldest. */
    method ReplaceInLine(pri: int, newtag: nat)
      requires Valid() && nodes != [] && pri == stamps[|stamps| - 1]
      requires newtag !in recent[..|recent| - 1]
      modifies this, nodes
      ensures Valid() && nodes == old(nodes)
      ensures recent == [newtag] + old(recent)[..|old(recent)| - 1]
    {
      var temp := head;
      ghost var k, p := 0, |lru| - 1;
      while temp != null
        invariant 0 <= k <= |nodes| && temp == if k < |nodes| then nodes[k] else null
        invariant forall j {:trigger nodes[j]} | 0 <= j < k :: nodes[j].pri != pri
        invariant Valid() && unchanged(this) && unchanged(nodes)
        decreases |nodes| - k
      {
        if temp.pri == pri {
          OldestIs(temp, p);
          assert Cut(recent, p) == recent[..p];
          Promote(temp, newtag, p);
          return;
        }
        assert LinkedAt(nodes, k);
        temp := temp.next;
        k := k + 1;
      }
      OldestIsListed();
      assert false;
    }

    lemma OldestIsListed()
      requires Valid() && nodes != []
      ensures exists j {:trigger nodes[j]} :: 0 <= j < |nodes| && nodes[j].pri == stamps[|stamps| - 1]
    {
      var x := lru[|lru| - 1];
      assert x in lru && Has(nodes, x);
    }

    lemma OldestIs(x: Line, p: nat)
      requires Valid() && p < |lru| && x in nodes && x.pri == stamps[p]
      ensures x == lru[p]
    {
      var j := PlaceOf(x);
    }

    // Where a line of the set stands in the recency order.
    lemma PlaceOf(x: Line) returns (p: nat)
      requires Valid() && x in nodes
      ensures p < |lru| && lru[p] == x && recent[p] == x.tag && stamps[p] == x.pri
    {
      assert Has(lru, x);
      p :| 0 <= p < |lru| && lru[p] == x;
    }

    /** One access: the search, and the hit, insertion or replacement it leads to. */
    method Access(tag: nat, E: nat) returns (hit: bool, evicted: bool)
      requires Valid() && |nodes| <= L.Ways(E)
      modifies this, nodes
      ensures Valid() && |nodes| <= L.Ways(E)
      ensures old(nodes) <= nodes && forall k {:trigger nodes[k]} | |old(nodes)| <= k < |nodes| :: fresh(nodes[k])
      ensures recent == L.Access(E, old(recent), tag)
      ensures hit == L.Hits(E, old(recent), tag) && evicted == L.Evicts(E, old(recent), tag)
    {
      hit, evicted := false, false;
      if clock == 0 {
        InsertFirst(tag);
        return;
      }
      var temp, count, minPri := Search(tag, E);
      if temp != null {
        HitLine(temp);
        hit := true;
      } else if count < E {
        InsertNewest(tag);
      } else {
        ReplaceInLine(minPri, tag);
        evicted := true;
      }
    }

    // The loop that looks for the tag and, on the way, for the oldest timestamp.
    method Search(tag: nat, E: nat) returns (temp: Line?, count: nat, minPri: int)
      requires Valid() && nodes != [] && |nodes| <= L.Ways(E)
      ensures temp != null ==> temp in nodes && temp.tag == tag && E > 0
      ensures temp == null ==>
        && (E > 0 ==> count == |nodes| && tag !in recent) && (E == 0 ==> count == 0)
        && tag !in recent[..|recent| - 1]
        && minPri == stamps[|stamps| - 1]
    {
      temp := head;
      count := 0;
      minPri := clock;
      while temp != null && count < E
        invariant 0 <= count <= |nodes| && temp == if count < |nodes| then nodes[count] else null
        invariant forall j {:trigger nodes[j]} | 0 <= j < count :: nodes[j].tag != tag && minPri <= nodes[j].pri
        invariant minPri == clock || exists j {:trigger nodes[j]} :: 0 <= j < count && nodes[j].pri == minPri
        invariant count <= E || count == 0
        decreases |nodes| - count
      {
        if temp.tag == tag {
          return;
        }
        if temp.pri < minPri {
          minPri := temp.pri;
        }
        assert LinkedAt(nodes, count);
        temp := temp.next;
        count := count + 1;
      }
      Searched(tag, E, count, minPri);
      temp := null;
    }

    // The branch of the search that finds the tag.
    method HitLine(temp: Line)
      requires Valid() && temp in nodes
      modifies this, nodes
      ensures Valid() && nodes == old(nodes)
      ensures old(temp.tag) in old(recent) && recent == [old(temp.tag)] + Without(old(recent), old(temp.tag))
    {
      ghost var p := PlaceOf(temp);
      WithoutIs(recent, p);
      Promote(temp, temp.tag, p);
    }

    static lemma {:induction false} WithoutIs(u: seq<nat>, p: nat)
      requires L.Distinct(u) && p < |u|
      ensures Without(u, u[p]) == Cut(u, p) && u[p] !in Cut(u, p)
    {
      forall k | 0 <= k < |Cut(u, p)| ensures Cut(u, p)[k] != u[p] {
      }
      if p > 0 {
        var v := u[1..];
        forall i, j | 0 <= i < j < |v| ensures v[i] != v[j] {
          assert u[i + 1] != u[j + 1];
        }
        WithoutIs(v, p - 1);
        CutTail(u, p);
      }
    }

    static lemma CutTail(u: seq<nat>, p: nat)
      requires 0 < p < |u|
      ensures Cut(u, p) == [u[0]] + Cut(u[1..], p - 1)
    {
    }

    // What a search without a hit has established: the tag is new, unless E is 0, and minPri is the oldest.
    lemma Searched(tag: nat, E: nat, count: nat, minPri: int)
      requires Valid() && nodes != [] && count <= |nodes| <= L.Ways(E) && (count == |nodes| || count >= E)
      requires forall j {:trigger nodes[j]} | 0 <= j < count :: nodes[j].tag != tag && minPri <= nodes[j].pri
      requires minPri == clock || exists j {:trigger nodes[j]} :: 0 <= j < count && nodes[j].pri == minPri
      requires E == 0 ==> count == 0
      ensures E > 0 ==> count == |nodes| && tag !in recent
      ensures tag !in recent[..|recent| - 1]
      ensures minPri == stamps[|stamps| - 1]
    {
      if count == |nodes| {
        NewTag(tag);
      }
      OldestFound(count, minPri);
    }

    lemma NewTag(tag: nat)
      requires Valid() && forall j {:trigger nodes[j]} | 0 <= j < |nodes| :: nodes[j].tag != tag
      ensures tag !in recent
    {
      forall k | 0 <= k < |recent| ensures recent[k] != tag {
        var x := lru[k];
        assert x in lru && Has(nodes, x);
      }
    }

    // The line that is k-th in the recency order, in the list.
    lemma NodeOf(k: nat) returns (i: nat)
      requires Valid() && k < |lru|
      ensures i < |nodes| && nodes[i] == lru[k] && nodes[i].pri == stamps[k]
    {
      assert lru[k] in lru && Has(nodes, lru[k]);
      i :| 0 <= i < |nodes| && nodes[i] == lru[k];
    }

    lemma StampsFall(p: nat)
      requires Valid() && nodes != []
      ensures |lru| == |nodes| == |stamps| && stamps[0] == clock
      ensures p < |stamps| ==> stamps[|stamps| - 1] <= stamps[p]
    {
    }

    lemma OldestFound(count: nat, minPri: int)
      requires Valid() && nodes != [] && count <= |nodes| && (count == |nodes| || |nodes| == 1)
      requires forall j {:trigger nodes[j]} | 0 <= j < count :: minPri <= nodes[j].pri
      requires minPri == clock || exists j {:trigger nodes[j]} :: 0 <= j < count && nodes[j].pri == minPri
      ensures minPri == stamps[|stamps| - 1]
    {
      StampsFall(0);
      if count == |nodes| {
        var i := NodeOf(|lru| - 1);
        assert minPri <= nodes[i].pri;
      }
      if minPri != clock {
        var j :| 0 <= j < count && nodes[j].pri == minPri;
        var p := PlaceOf(nodes[j]);
        StampsFall(p);
      }
    }
  }

  // A set that holds the tags r, in at most its number of lines.
  ghost predicate SetOk(c: CacheSet, r: seq<nat>, E: nat)
    reads c, c.nodes
  {
    c.Valid() && |c.nodes| <= L.Ways(E) && c.recent == r
  }

  // The two sets share no line.
  ghost predicate Separate(c: CacheSet, d: CacheSet)
    reads c, d
  {
    && c != d
    && forall j, k {:trigger c.nodes[j], d.nodes[k]} | 0 <= j < |c.nodes| && 0 <= k < |d.nodes| ::
         c.nodes[j] != d.nodes[k]
  }

  method NewSets(n: nat, E: nat) returns (sets: array<CacheSet>)
    ensures fresh(sets) && sets.Length == n
    ensures forall i {:trigger sets[i]} | 0 <= i < n :: fresh(sets[i]) && SetOk(sets[i], [], E) && sets[i].nodes == []
    ensures forall i, j {:trigger sets[i], sets[j]} | 0 <= i < j < n :: sets[i] != sets[j]
  {
    var made: seq<CacheSet> := [];
    for k := 0 to n
      invariant |made| == k
      invariant forall i {:trigger made[i]} | 0 <= i < k ::
        fresh(made[i]) && SetOk(made[i], [], E) && made[i].nodes == []
      invariant forall i, j {:trigger made[i], made[j]} | 0 <= i < j < k :: made[i] != made[j]
    {
      var c := new CacheSet();
      made := made + [c];
    }
    sets := new CacheSet[n](i requires 0 <= i < n => made[i]);
    assert forall i {:trigger sets[i]} | 0 <= i < n :: sets[i] == made[i];
  }

  ghost predicate Inside(c: CacheSet, repr: set<object>)
    reads c
  {
    c in repr && forall k {:trigger c.nodes[k]} | 0 <= k < |c.nodes| :: c.nodes[k] in repr
  }

  /** The sets are disjoint parts of repr, and each is as its list of tags says. */
  ghost predicate AllOk(cache: array<CacheSet>, repr: set<object>, g: Geometry, sets: seq<seq<nat>>)
    reads cache, repr
  {
    && cache in repr && cache.Length == Pow2(g.s) == |sets|
    && (forall i {:trigger cache[i]} | 0 <= i < cache.Length ::
          cache[i] in repr && Inside(cache[i], repr) && SetOk(cache[i], sets[i], g.E))
    && forall i, j {:trigger cache[i], cache[j]} | 0 <= i < j < cache.Length :: Separate(cache[i], cache[j])
  }

  /** The simulator: all sets and the three counters, against the statistics they must equal. */
  class Simulator {
    const g: Geometry
    const cache: array<CacheSet>
    var hits: int
    var misses: int
    var evictions: int
    ghost var st: Stats
    // The objects the sets are made of.
    ghost var repr: set<object>

    ghost predicate Valid()
      reads this, cache, repr
    {
      && this !in repr
      && AllOk(cache, repr, g, st.sets)
      && hits == st.hits && misses == st.misses && evictions == st.evictions
    }

    constructor (g: Geometry)
      requires g.s <= 5
      ensures Valid() && fresh(repr) && this.g == g && st == Initial(g)
    {
      this.g := g;
      hits, misses, evictions := 0, 0, 0;
      st := Initial(g);
      var sets := NewSets(Pow2(g.s), g.E);
      cache := sets;
      repr := {sets} + (set i | 0 <= i < sets.Length :: sets[i]);
      new;
      FreshOk();
    }

    lemma FreshOk()
      requires cache.Length == Pow2(g.s) && repr == {cache} + (set i | 0 <= i < cache.Length :: cache[i])
      requires forall i {:trigger cache[i]} | 0 <= i < cache.Length :: SetOk(cache[i], [], g.E) && cache[i].nodes == []
      requires forall i, j {:trigger cache[i], cache[j]} | 0 <= i < j < cache.Length :: cache[i] != cache[j]
      ensures AllOk(cache, repr, g, Initial(g).sets)
    {
    }

    /** An access in set i changes that set alone. */
    method AccessSet(i: nat, t: nat) returns (hit: bool, evicted: bool)
      requires Valid() && i < cache.Length
      modifies this`repr, repr
      ensures this !in repr && fresh(repr - old(repr))
      ensures AllOk(cache, repr, g, st.sets[i := L.Access(g.E, st.sets[i], t)])
      ensures hit == L.Hits(g.E, st.sets[i], t) && evicted == L.Evicts(g.E, st.sets[i], t)
    {
      hit, evicted := AccessAlone(i, t);
      repr := repr + (set x: object | x in cache[i].nodes);
      GrownOk(i, st.sets[i := L.Access(g.E, st.sets[i], t)], old(repr));
    }

    // The same, before the new lines are part of repr.
    method AccessAlone(i: nat, t: nat) returns (hit: bool, evicted: bool)
      requires Valid() && i < cache.Length
      modifies repr
      ensures cache in repr && cache.Length == Pow2(g.s) == |st.sets| && cache[..] == old(cache[..]) && cache[i] in repr
      ensures SetOk(cache[i], L.Access(g.E, st.sets[i], t), g.E)
      ensures forall k {:trigger cache[i].nodes[k]} | 0 <= k < |cache[i].nodes| ::
        cache[i].nodes[k] in repr || fresh(cache[i].nodes[k])
      ensures forall j {:trigger cache[j]} | 0 <= j < cache.Length && j != i ::
        SetOk(cache[j], st.sets[j], g.E) && Inside(cache[j], repr) && Separate(cache[j], cache[i])
      ensures forall j, k {:trigger cache[j], cache[k]} | 0 <= j < k < cache.Length && j != i && k != i ::
        Separate(cache[j], cache[k])
      ensures hit == L.Hits(g.E, st.sets[i], t) && evicted == L.Evicts(g.E, st.sets[i], t)
    {
      var c := cache[i];
      OnlyOne(i);
      hit, evicted := c.Access(t, g.E);
      forall j | 0 <= j < cache.Length && j != i
        ensures SetOk(cache[j], st.sets[j], g.E) && Inside(cache[j], repr) && Separate(cache[j], c)
      {
        assert old(SetOk(cache[j], st.sets[j], g.E) && Inside(cache[j], repr) && Separate(cache[j], c));
      }
    }

    lemma OnlyOne(i: nat)
      requires Valid() && i < cache.Length
      ensures SetOk(cache[i], st.sets[i], g.E) && Inside(cache[i], repr)
      ensures forall j {:trigger cache[j]} | 0 <= j < cache.Length && j != i :: Separate(cache[j], cache[i])
    {
      forall j | 0 <= j < cache.Length && j != i ensures Separate(cache[j], cache[i]) {
        assert if j < i then Separate(cache[j], cache[i]) else Separate(cache[i], cache[j]);
      }
    }

    // The new lines of set i, which are in no other set, are part of repr now.
    lemma GrownOk(i: nat, sets: seq<seq<nat>>, repr0: set<object>)
      requires cache in repr0 && cache.Length == Pow2(g.s) == |sets| && i < cache.Length && cache[i] in repr0
      requires repr == repr0 + (set x: object | x in cache[i].nodes) && SetOk(cache[i], sets[i], g.E)
      requires forall j {:trigger cache[j]} | 0 <= j < cache.Length && j != i ::
        SetOk(cache[j], sets[j], g.E) && Inside(cache[j], repr0) && Separate(cache[j], cache[i])
      requires forall j, k {:trigger cache[j], cache[k]} | 0 <= j < k < cache.Length && j != i && k != i ::
        Separate(cache[j], cache[k])
      ensures AllOk(cache, repr, g, sets)
    {
    }

    /** One record of the trace. */
    method Process(rec: Record)
      requires Valid()
      modifies this, repr
      ensures Valid() && fresh(repr - old(repr))
      ensures st == Step(g, old(st), rec)
    {
      if rec.id == 'I' {
        return;
      }
      var i, t := SetIndex(g, rec.addr), TagOf(g, rec.addr);
      var hit, evicted := AccessSet(i, t);
      Tally(rec, hit, evicted);
      st := Step(g, st, rec);
    }

    // The counters that one access moves.
    method Tally(rec: Record, hit: bool, evicted: bool)
      modifies `hits, `misses, `evictions
      ensures hits == old(hits) + Count(hit) + Count(rec.id == 'M')
      ensures misses == old(misses) + Count(!hit) && evictions == old(evictions) + Count(evicted)
    {
      hits := hits + Count(hit);
      misses := misses + Count(!hit);
      evictions := evictions + Count(evicted);
      hits := hits + Count(rec.id == 'M');
    }
  }

  /**
   * csim on a whole trace: the three numbers it prints, as the list model has them and as the addresses determine them.
   * initSet has 32 entries, so at most 2^5 sets.
   */
  method Simulate(g: Geometry, trace: seq<Record>) returns (hits: int, misses: int, evictions: int)
    requires g.s <= 5
    ensures hits == Run(g, trace).hits && misses == Run(g, trace).misses && evictions == Run(g, trace).evictions
    ensures hits == |A.HitRecords(g, trace)| + |A.ModifyRecords(trace)|
    ensures misses == |A.MissRecords(g, trace)| && evictions == |A.EvictionRecords(g, trace)|
  {
    var sim := new Simulator(g);
    for n := 0 to |trace|
      invariant sim.Valid() && fresh(sim) && fresh(sim.repr) && sim.g == g
      invariant sim.st == Run(g, trace[..n])
    {
      sim.Process(trace[n]);
      assert trace[..n + 1][..n] == trace[..n];
    }
    assert trace[..|trace|] == trace;
    hits, misses, evictions := sim.hits, sim.misses, sim.evictions;
    A.CountersAre(g, trace);
  }
}
