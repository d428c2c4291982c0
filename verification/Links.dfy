/** Doubly linked free lists threaded through the second and third word of each free block.

    A list is named by its head: `loc` is the word that holds the first link, `id` is what the first block's
    prev link says. In the segregated allocator both are the slot itself; in the explicit one they are the
    prologue's link word and the prologue. The last next link names the epilogue `epi`. */
module Links {
  import opened Words
  import opened Sequences

  datatype Head = Head(id: nat, loc: nat, epi: nat)

  function At(s: seq<nat>, k: nat, epi: nat): nat {
    if k < |s| then s[k] else epi
  }

  function Before(s: seq<nat>, k: nat, id: nat): nat
    requires k <= |s|
  {
    if k == 0 then id else s[k - 1]
  }

  // The word that holds the link to element k.
  function LinkTo(hd: Head, s: seq<nat>, k: nat): nat
    requires k <= |s|
  {
    if k == 0 then hd.loc else s[k - 1] + 1
  }

  /** From hd the next links spell out s and end at the epilogue, and the prev links are their inverse. */
  ghost predicate Chain(h: seq<Word>, hd: Head, s: seq<nat>) {
    && hd.loc < |h|
    && h[hd.loc] == At(s, 0, hd.epi)
    && forall k {:trigger ChainAt(h, hd, s, k)} | 0 <= k < |s| :: ChainAt(h, hd, s, k)
  }

  ghost predicate ChainAt(h: seq<Word>, hd: Head, s: seq<nat>, k: nat)
    requires k < |s|
  {
    && s[k] + 2 < |h|
    && h[s[k] + 1] == At(s, k + 1, hd.epi)
    && h[s[k] + 2] == Before(s, k, hd.id)
  }

  // Blocks are at least four words long, so their headers are at least four words apart.
  ghost predicate Far(x: int, y: int) {
    x == y || x + 4 <= y || y + 4 <= x
  }

  ghost predicate Sparse(F: set<int>, lo: nat) {
    && (forall x | x in F :: lo <= x)
    && (forall x, y {:trigger Far(x, y)} | x in F && y in F :: Far(x, y))
  }

  // s lists elements of F, each at most once.
  ghost predicate Lists(s: seq<nat>, F: set<int>) {
    && (forall k {:trigger s[k]} | 0 <= k < |s| :: s[k] in F)
    && (forall j, k {:trigger s[j], s[k]} | 0 <= j < k < |s| :: s[j] != s[k])
  }

  function Replace(s: seq<nat>, a: nat, b: nat): seq<nat> {
    if s == [] then [] else if s[0] == a then [b] + s[1..] else [s[0]] + Replace(s[1..], a, b)
  }

  ghost predicate Removed(s: seq<nat>, k: nat, t: seq<nat>) {
    && |s| == |t| + 1
    && k < |s|
    && forall j {:trigger t[j]} | 0 <= j < |t| :: t[j] == if j < k then s[j] else s[j + 1]
  }

  lemma {:induction false} WithoutAt(s: seq<nat>, k: nat)
    requires k < |s| && forall j | 0 <= j < k :: s[j] != s[k]
    ensures Removed(s, k, Without(s, s[k]))
  {
    if k > 0 {
      WithoutAt(s[1..], k - 1);
    }
  }

  lemma {:induction false} ReplaceAt(s: seq<nat>, k: nat, b: nat)
    requires k < |s| && forall j | 0 <= j < k :: s[j] != s[k]
    ensures Replace(s, s[k], b) == s[k := b]
  {
    if k > 0 {
      ReplaceAt(s[1..], k - 1, b);
    }
  }

  lemma {:induction false} ReplaceAbsent(s: seq<nat>, a: nat)
    requires a !in s
    ensures forall b :: Replace(s, a, b) == s
  {
    if s != [] {
      ReplaceAbsent(s[1..], a);
      assert s == [s[0]] + s[1..];
    }
  }

  lemma WithoutRemoved(s: seq<nat>, F: set<int>, k: nat)
    requires Lists(s, F) && k < |s|
    ensures Removed(s, k, Without(s, s[k]))
    ensures s[k] !in Without(s, s[k])
  {
    WithoutAt(s, k);
  }

  // ---- What one list operation writes ----------------------------------------

  // Words a list operation may write: head words 2..n, and the two link words of blocks in F.
  ghost predicate LinkWord(n: nat, F: set<int>, i: int) {
    2 <= i <= n || i - 1 in F || i - 2 in F
  }

  // Outside link words and W nothing changed.
  ghost predicate Frame(h: seq<Word>, h': seq<Word>, n: nat, F: set<int>, W: set<int>) {
    && |h'| == |h|
    && forall i {:trigger h'[i]} | 0 <= i < |h| && i !in W && !LinkWord(n, F, i) :: h'[i] == h[i]
  }

  lemma ChainFrame(h: seq<Word>, h': seq<Word>, hd: Head, s: seq<nat>)
    requires Chain(h, hd, s) && |h'| == |h|
    requires h'[hd.loc] == h[hd.loc]
    requires forall k | 0 <= k < |s| && s[k] + 2 < |h| :: h'[s[k] + 1] == h[s[k] + 1] && h'[s[k] + 2] == h[s[k] + 2]
    ensures Chain(h', hd, s)
  {
    forall k | 0 <= k < |s| ensures ChainAt(h', hd, s, k) {
      assert ChainAt(h, hd, s, k);
    }
  }

  // Outside the words in W nothing changed.
  ghost predicate Wrote(h: seq<Word>, h': seq<Word>, W: set<int>) {
    && |h'| == |h|
    && forall i {:trigger h'[i]} | 0 <= i < |h| && i !in W :: h'[i] == h[i]
  }

  // What removeBlock leaves in memory when element k of s is unlinked.
  ghost predicate Unlinked(h: seq<Word>, h': seq<Word>, hd: Head, s: seq<nat>, k: nat)
    requires k < |s|
  {
    var p, n := LinkTo(hd, s, k), At(s, k + 1, hd.epi);
    && Wrote(h, h', {p, n + 2})
    && p < |h| && h'[p] == n
    && if k + 1 < |s| then n + 2 < |h| && h'[n + 2] == Before(s, k, hd.id) else Wrote(h, h', {p})
  }

  /** Unlinking element k: its predecessor's link skips it, its successor's prev link skips it. */
  lemma ChainRemove(h: seq<Word>, h': seq<Word>, hd: Head, s: seq<nat>, F: set<int>, k: nat, t: seq<nat>)
    requires Chain(h, hd, s) && Sparse(F, hd.loc + 1) && Lists(s, F) && Removed(s, k, t)
    requires Unlinked(h, h', hd, s, k)
    ensures Chain(h', hd, t) && Lists(t, F)
  {
    assert k > 0 ==> ChainAt(h, hd, s, k - 1);
    forall j | 0 <= j < |t| ensures ChainAt(h', hd, t, j) {
      ChainRemoveAt(h, h', hd, s, F, k, t, j);
    }
  }

  lemma ChainRemoveAt(h: seq<Word>, h': seq<Word>, hd: Head, s: seq<nat>, F: set<int>, k: nat, t: seq<nat>, j: nat)
    requires Chain(h, hd, s) && Sparse(F, hd.loc + 1) && Lists(s, F) && Removed(s, k, t)
    requires Unlinked(h, h', hd, s, k) && j < |t|
    ensures ChainAt(h', hd, t, j)
  {
    var i := if j < k then j else j + 1;
    assert ChainAt(h, hd, s, i);
    assert Far(s[k], s[i]);
    assert k > 0 ==> Far(s[k - 1], s[i]);
    assert k + 1 < |s| ==> Far(s[k + 1], s[i]);
  }

  // What placeFreeBlock leaves in memory when a is put at the front of s.
  ghost predicate Pushed(h: seq<Word>, h': seq<Word>, hd: Head, s: seq<nat>, a: nat) {
    var n := At(s, 0, hd.epi);
    && |h'| == |h|
    && a + 2 < |h| && h'[a + 1] == n && h'[a + 2] == hd.id
    && hd.loc < |h| && h'[hd.loc] == a
    && if s == [] then Wrote(h, h', {a + 1, a + 2, hd.loc})
       else n + 2 < |h| && h'[n + 2] == a && Wrote(h, h', {a + 1, a + 2, hd.loc, n + 2})
  }

  lemma ChainPush(h: seq<Word>, h': seq<Word>, hd: Head, s: seq<nat>, F: set<int>, a: nat)
    requires Chain(h, hd, s) && Sparse(F, hd.loc + 1) && Lists(s, F) && a in F && a !in s
    requires Pushed(h, h', hd, s, a)
    ensures Chain(h', hd, [a] + s) && Lists([a] + s, F)
  {
    var t := [a] + s;
    assert t[0] == a && forall j | 0 < j < |t| :: t[j] == s[j - 1];
    forall j | 0 <= j < |t| ensures ChainAt(h', hd, t, j) {
      ChainPushAt(h, h', hd, s, t, F, a, j);
    }
  }

  lemma ChainPushAt(h: seq<Word>, h': seq<Word>, hd: Head, s: seq<nat>, t: seq<nat>, F: set<int>, a: nat, j: nat)
    requires Chain(h, hd, s) && Sparse(F, hd.loc + 1) && Lists(s, F) && a in F && a !in s
    requires Pushed(h, h', hd, s, a)
    requires |t| == |s| + 1 && t[0] == a && forall j | 0 < j < |t| :: t[j] == s[j - 1]
    requires j < |t|
    ensures ChainAt(h', hd, t, j)
  {
    assert s != [] ==> Far(a, s[0]) && t[1] == s[0];
    if j > 0 {
      assert ChainAt(h, hd, s, j - 1);
      assert t[j] == s[j - 1];
      assert s[j - 1] in s;
      assert Far(a, s[j - 1]) && Far(s[0], s[j - 1]);
      assert j + 1 < |t| ==> t[j + 1] == s[j];
    }
  }

  // What splitting leaves in memory when b takes the place of element k.
  ghost predicate Replaced(h: seq<Word>, h': seq<Word>, hd: Head, s: seq<nat>, k: nat, b: nat)
    requires k < |s|
  {
    var p, n := LinkTo(hd, s, k), At(s, k + 1, hd.epi);
    && |h'| == |h|
    && b + 2 < |h| && h'[b + 1] == n && h'[b + 2] == Before(s, k, hd.id)
    && p < |h| && h'[p] == b
    && if k + 1 == |s| then Wrote(h, h', {b + 1, b + 2, p})
       else n + 2 < |h| && h'[n + 2] == b && Wrote(h, h', {b + 1, b + 2, p, n + 2})
  }

  lemma ChainReplace(h: seq<Word>, h': seq<Word>, hd: Head, s: seq<nat>, F: set<int>, k: nat, b: nat)
    requires Chain(h, hd, s) && k < |s| && Sparse(F, hd.loc + 1) && Lists(s[k := b], F)
    requires Replaced(h, h', hd, s, k, b)
    ensures Chain(h', hd, s[k := b])
  {
    var t := s[k := b];
    assert t[k] == b;
    assert k > 0 ==> ChainAt(h, hd, s, k - 1) && t[k - 1] == s[k - 1];
    assert k == 0 ==> h'[hd.loc] == b;
    forall j | 0 <= j < |t| ensures ChainAt(h', hd, t, j) {
      ChainReplaceAt(h, h', hd, s, t, F, k, b, j);
    }
    assert t[0] == if k == 0 then b else s[0];
    assert k + 1 < |s| ==> t[k + 1] == s[k + 1];
  }

  lemma ChainReplaceAt(h: seq<Word>, h': seq<Word>, hd: Head, s: seq<nat>, t: seq<nat>, F: set<int>, k: nat, b: nat,
                       j: nat)
    requires Chain(h, hd, s) && k < |s| && Sparse(F, hd.loc + 1) && t == s[k := b] && Lists(t, F)
    requires Replaced(h, h', hd, s, k, b) && j < |t|
    ensures ChainAt(h', hd, t, j)
  {
    assert ChainAt(h, hd, s, j);
    assert t[j] == if j == k then b else s[j];
    assert Far(t[k], t[j]);
    assert k > 0 ==> t[k - 1] == s[k - 1] && Far(t[k - 1], t[j]);
    assert k + 1 < |s| ==> t[k + 1] == s[k + 1] && Far(t[k + 1], t[j]);
  }

  ghost predicate ClearOf(F: set<int>, b: int) {
    forall f | f in F :: Far(f, b) && f != b
  }

  ghost predicate ClearBy(f: nat, a: nat, b: nat) {
    f + 4 <= a || b + 4 <= f
  }
}
