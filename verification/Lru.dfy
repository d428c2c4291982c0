/** Least-recently-used replacement as values: one list of tags per set, most recent first. */
module Lru {
  import opened Sequences

  // ---- One set ---------------------------------------------------------------

  // A set may hold E lines; the simulator keeps one even when E is 0, but then never hits.
  function Ways(E: nat): nat {
    if E == 0 then 1 else E
  }

  predicate Hits(E: nat, r: seq<nat>, t: nat) {
    E > 0 && t in r
  }

  predicate Evicts(E: nat, r: seq<nat>, t: nat) {
    !Hits(E, r, t) && |r| >= Ways(E)
  }

  // The set after an access to tag t: t in front, and the last line gone if t is new and the set is full.
  function Access(E: nat, r: seq<nat>, t: nat): seq<nat> {
    if Hits(E, r, t) then [t] + Without(r, t)
    else if |r| < Ways(E) then [t] + r
    else [t] + r[..Ways(E) - 1]
  }

  function Touch(u: seq<nat>, t: nat): seq<nat> {
    [t] + Without(u, t)
  }

  // All tags ever accessed, most recent first.
  function Recency(xs: seq<nat>): seq<nat> {
    if xs == [] then [] else Touch(Recency(xs[..|xs| - 1]), xs[|xs| - 1])
  }

  function Take(u: seq<nat>, n: nat): seq<nat> {
    if n < |u| then u[..n] else u
  }

  ghost predicate Distinct(u: seq<nat>) {
    forall i, j {:trigger u[i], u[j]} | 0 <= i < j < |u| :: u[i] != u[j]
  }

  lemma PrependDistinct(x: nat, u: seq<nat>)
    requires Distinct(u) && x !in u
    ensures Distinct([x] + u)
  {
  }

  lemma {:induction false} WithoutFacts(u: seq<nat>, t: nat)
    requires Distinct(u)
    ensures Distinct(Without(u, t)) && t !in Without(u, t)
    ensures forall x {:trigger x in u} | x != t :: x in u <==> x in Without(u, t)
    ensures |Without(u, t)| == if t in u then |u| - 1 else |u|
  {
    if u != [] && u[0] != t {
      WithoutFacts(u[1..], t);
      assert forall x :: x in u <==> x == u[0] || x in u[1..];
      assert u[0] !in u[1..];
      PrependDistinct(u[0], Without(u[1..], t));
    }
  }

  lemma {:induction false} WithoutAppend(u: seq<nat>, v: seq<nat>, t: nat)
    ensures Without(u + v, t) == if t in u then Without(u, t) + v else u + Without(v, t)
  {
    if u == [] {
      assert u + v == v && u + Without(v, t) == Without(v, t);
    } else {
      var x, w := u[0], u[1..];
      assert (u + v)[0] == x && (u + v)[1..] == w + v;
      if x != t {
        WithoutAppend(w, v, t);
        assert t in u <==> t in w;
        if t in w {
          Associate([x], Without(w, t), v);
        } else {
          Associate([x], w, Without(v, t));
          assert [x] + w == u;
        }
      }
    }
  }

  lemma Associate(a: seq<nat>, b: seq<nat>, c: seq<nat>)
    ensures a + (b + c) == (a + b) + c
  {
  }

  lemma PrefixDistinct(r: seq<nat>, v: seq<nat>)
    requires Distinct(r + v)
    ensures Distinct(r)
  {
    forall i, j | 0 <= i < j < |r| ensures r[i] != r[j] {
      assert (r + v)[i] == r[i] && (r + v)[j] == r[j];
    }
  }

  lemma TakeAppend(r: seq<nat>, v: seq<nat>, n: nat)
    requires |r| <= n && (|r| < n ==> v == [])
    ensures Take(r + v, n) == r
  {
    if v == [] {
      assert r + v == r;
    }
  }

  lemma TakeContains(u: seq<nat>, k: nat, n: nat)
    requires Distinct(u) && k < |u|
    ensures u[k] in Take(u, n) <==> k < n
  {
    if k < n {
      assert Take(u, n)[k] == u[k];
    } else {
      forall i | 0 <= i < |Take(u, n)| ensures Take(u, n)[i] != u[k] {
        assert Take(u, n)[i] == u[i];
      }
    }
  }

  lemma TouchHit(r: seq<nat>, v: seq<nat>, t: nat, n: nat)
    requires Distinct(r + v) && t in r && |r| <= n && (|r| < n ==> v == [])
    ensures Take(Touch(r + v, t), n) == [t] + Without(r, t)
  {
    WithoutAppend(r, v, t);
    PrefixDistinct(r, v);
    WithoutFacts(r, t);
    Associate([t], Without(r, t), v);
    TakeAppend([t] + Without(r, t), v, n);
  }

  lemma TouchMiss(r: seq<nat>, v: seq<nat>, t: nat, n: nat)
    requires t !in r && 1 <= n && |r| <= n && (|r| < n ==> v == [])
    ensures Take(Touch(r + v, t), n) == if |r| < n then [t] + r else [t] + r[..n - 1]
  {
    WithoutAppend(r, v, t);
    Associate([t], r, Without(v, t));
    if |r| < n {
      TakeAppend([t] + r, [], n);
    }
  }

  /** The lines of a set are its most recently used tags, as many as there are ways: every access keeps it so. */
  lemma AccessIsTouch(E: nat, u: seq<nat>, t: nat)
    requires Distinct(u)
    ensures Access(E, Take(u, Ways(E)), t) == Take(Touch(u, t), Ways(E))
  {
    var n := Ways(E);
    var r := Take(u, n);
    var v := u[|r|..];
    assert u == r + v;
    if t in r {
      TouchHit(r, v, t, n);
      if E == 0 {
        assert r == [t] && Without(r, t) == [];
      }
    } else {
      TouchMiss(r, v, t, n);
    }
  }

  lemma {:induction false} RecencyDistinct(xs: seq<nat>)
    ensures Distinct(Recency(xs))
    ensures forall x :: x in Recency(xs) <==> x in xs
  {
    if xs != [] {
      var ys, t := xs[..|xs| - 1], xs[|xs| - 1];
      RecencyDistinct(ys);
      WithoutFacts(Recency(ys), t);
      assert xs == ys + [t];
    }
  }

  lemma RecencyAppend(xs: seq<nat>, y: nat)
    ensures Recency(xs + [y]) == Touch(Recency(xs), y)
  {
    assert (xs + [y])[..|xs + [y]| - 1] == xs;
  }

  /** After an access to t followed by accesses ys to other tags, t has exactly the tags of ys in front of it. */
  lemma {:induction false} RecencySince(xs: seq<nat>, t: nat, ys: seq<nat>) returns (rest: seq<nat>)
    requires t !in ys
    ensures Recency(xs + [t] + ys) == Recency(ys) + ([t] + rest)
  {
    if ys == [] {
      assert xs + [t] + ys == xs + [t];
      RecencyAppend(xs, t);
      rest := Without(Recency(xs), t);
      assert Recency(ys) + ([t] + rest) == [t] + rest;
    } else {
      var zs, y := ys[..|ys| - 1], ys[|ys| - 1];
      assert ys == zs + [y];
      var tail := RecencySince(xs, t, zs);
      assert xs + [t] + ys == xs + [t] + zs + [y];
      RecencyAppend(xs + [t] + zs, y);
      RecencyAppend(zs, y);
      rest := TouchBehind(Recency(zs), t, tail, y);
    }
  }

  lemma TouchBehind(v: seq<nat>, t: nat, tail: seq<nat>, y: nat) returns (rest: seq<nat>)
    requires y != t
    ensures Touch(v + ([t] + tail), y) == Touch(v, y) + ([t] + rest)
  {
    WithoutAppend(v, [t] + tail, y);
    if y in v {
      rest := tail;
    } else {
      WithoutAbsent(v, y);
      rest := Without(tail, y);
      assert ([t] + tail)[1..] == tail;
      assert Without([t] + tail, y) == [t] + rest;
    }
  }

  // The set of tags accessed.
  ghost function TagSet(xs: seq<nat>): set<nat> {
    set x | x in xs
  }

  lemma {:induction false} DistinctCount(u: seq<nat>)
    requires Distinct(u)
    ensures |TagSet(u)| == |u|
  {
    if u != [] {
      DistinctCount(u[1..]);
      assert TagSet(u) == {u[0]} + TagSet(u[1..]);
    }
  }

  // t was last accessed at position i, and fewer than E distinct other tags have been accessed since.
  ghost predicate RecentAt(E: nat, zs: seq<nat>, t: nat, i: nat) {
    i < |zs| && zs[i] == t && t !in zs[i + 1..] && |TagSet(zs[i + 1..])| < E
  }

  /**
   * The hit rule. An access to t after the accesses zs hits exactly when t was accessed before and fewer than E
   * distinct other tags have been accessed since.
   */
  lemma HitRule(E: nat, zs: seq<nat>, t: nat)
    ensures Hits(E, Take(Recency(zs), Ways(E)), t) <==> exists i: nat :: RecentAt(E, zs, t, i)
  {
    if E == 0 {
    } else if t in zs {
      var i := LastIndex(zs, t);
      HitAt(E, zs, t, i);
      assert Hits(E, Take(Recency(zs), E), t) ==> RecentAt(E, zs, t, i);
      forall j: nat | RecentAt(E, zs, t, j) ensures j == i {
        if i < j {
          LaterIsIn(zs, i, j);
        } else if j < i {
          LaterIsIn(zs, j, i);
        }
      }
    } else {
      RecencyDistinct(zs);
      assert t !in Recency(zs);
      assert forall x | x in Take(Recency(zs), E) :: x in Recency(zs);
    }
  }

  lemma LaterIsIn(zs: seq<nat>, i: nat, j: nat)
    requires i < j < |zs|
    ensures zs[j] in zs[i + 1..]
  {
    assert zs[i + 1..][j - (i + 1)] == zs[j];
  }

  lemma {:induction false} LastIndex(zs: seq<nat>, t: nat) returns (i: nat)
    requires t in zs
    ensures i < |zs| && zs[i] == t && t !in zs[i + 1..]
  {
    i := |zs| - 1;
    if zs[i] != t {
      var ys := zs[..i];
      assert zs == ys + [zs[i]];
      i := LastIndex(ys, t);
      assert zs[i + 1..] == ys[i + 1..] + [zs[|zs| - 1]];
    }
  }

  lemma RecencyCount(ys: seq<nat>)
    ensures |TagSet(ys)| == |Recency(ys)|
  {
    RecencyDistinct(ys);
    DistinctCount(Recency(ys));
    assert TagSet(Recency(ys)) == TagSet(ys);
  }

  lemma MiddleIn(v: seq<nat>, t: nat, rest: seq<nat>, u: seq<nat>, n: nat)
    requires u == v + ([t] + rest) && Distinct(u)
    ensures t in Take(u, n) <==> |v| < n
  {
    assert u[|v|] == t;
    TakeContains(u, |v|, n);
  }

  lemma HitSplit(E: nat, xs: seq<nat>, t: nat, ys: seq<nat>)
    requires E >= 1 && t !in ys
    ensures t in Take(Recency(xs + [t] + ys), E) <==> |TagSet(ys)| < E
  {
    var rest := RecencySince(xs, t, ys);
    RecencyCount(ys);
    RecencyDistinct(xs + [t] + ys);
    MiddleIn(Recency(ys), t, rest, Recency(xs + [t] + ys), E);
  }

  lemma SplitAt(zs: seq<nat>, i: nat)
    requires i < |zs|
    ensures zs == zs[..i] + [zs[i]] + zs[i + 1..]
  {
  }

  lemma HitAt(E: nat, zs: seq<nat>, t: nat, i: nat)
    requires E >= 1 && i < |zs| && zs[i] == t && t !in zs[i + 1..]
    ensures Hits(E, Take(Recency(zs), E), t) <==> |TagSet(zs[i + 1..])| < E
  {
    var xs, ys := zs[..i], zs[i + 1..];
    SplitAt(zs, i);
    HitSplit(E, xs, t, ys);
  }
}
