/** Boundary tags: what the words of the heap say about a layout, and which writes keep it. */
module Tags {
  import opened Words
  import opened Blocks
  import opened Links

  // PACK(size, alloc) for a block.
  function Tag(b: Block): nat {
    4 * b.words + if b.free then 0 else 1
  }

  lemma DivEight(w: int, k: int, r: int)
    requires w == 8 * k + r && 0 <= r < 8
    ensures w / 8 == k
  {
  }

  lemma ModTwo(w: int, k: int, r: int)
    requires w == 2 * k + r && 0 <= r < 2
    ensures w % 2 == r
  {
  }

  lemma TagParts(b: Block, w: Word)
    requires w == Tag(b) && b.words % 2 == 0
    ensures BlockSize(w) == 4 * b.words && SizeInWords(w) == b.words
    ensures BlockFree(w) == if b.free then 0 else 1
  {
    DivEight(w, b.words / 2, if b.free then 0 else 1);
    ModTwo(w, 2 * b.words, if b.free then 0 else 1);
  }

  /** Header and footer of every block hold its size and free bit. */
  ghost predicate Tagged(h: seq<Word>, B: Layout) {
    forall a {:trigger TaggedAt(h, B, a)} | a in B :: TaggedAt(h, B, a)
  }

  ghost predicate TaggedAt(h: seq<Word>, B: Layout, a: nat)
    requires a in B
  {
    && B[a].words > 0
    && End(B, a) <= |h|
    && h[a] == Tag(B[a])
    && h[End(B, a) - 1] == Tag(B[a])
  }

  ghost function Frees(B: Layout): set<int> {
    set a: int | a in B.Keys && B[a].free
  }

  lemma FreesSparse(B: Layout, lo: nat, hi: nat)
    requires Tiles(B, lo, hi)
    ensures Sparse(Frees(B), lo)
  {
    forall x | x in Frees(B) ensures lo <= x {
      assert BlockFits(B, lo, hi, x);
    }
    forall x, y | x in Frees(B) && y in Frees(B) ensures Far(x, y) {
      assert Apart(B, x, y) && BlockFits(B, lo, hi, x) && BlockFits(B, lo, hi, y);
    }
  }

  // The words of [a, e) are untouched.
  ghost predicate KeepsRange(h: seq<Word>, h': seq<Word>, a: nat, e: nat) {
    && |h'| == |h|
    && e <= |h|
    && forall i {:trigger h'[i]} | a <= i < e :: h'[i] == h[i]
  }

  /** No word of a live block changed: neither its tags nor its payload. */
  ghost predicate KeepsLive(h: seq<Word>, h': seq<Word>, B: Layout) {
    forall a {:trigger KeepsRange(h, h', a, End(B, a))} | a in B && !B[a].free :: KeepsRange(h, h', a, End(B, a))
  }

  /** The same, for every live block but a. */
  ghost predicate KeepsOthers(h: seq<Word>, h': seq<Word>, B: Layout, a: nat) {
    forall c {:trigger KeepsRange(h, h', c, End(B, c))} | c in B && c != a && !B[c].free ::
      KeepsRange(h, h', c, End(B, c))
  }

  lemma KeepsLiveRefl(h: seq<Word>, B: Layout, lo: nat, hi: nat)
    requires Tiles(B, lo, hi) && hi <= |h|
    ensures KeepsLive(h, h, B)
  {
    forall a | a in B && !B[a].free ensures KeepsRange(h, h, a, End(B, a)) {
      assert BlockFits(B, lo, hi, a);
    }
  }

  lemma KeepsLiveTrans(h: seq<Word>, h1: seq<Word>, h2: seq<Word>, B: Layout, C: Layout)
    requires KeepsLive(h, h1, B) && KeepsLive(h1, h2, C)
    requires forall a | a in B && !B[a].free :: a in C && C[a] == B[a]
    ensures KeepsLive(h, h2, B)
  {
    forall a | a in B && !B[a].free ensures KeepsRange(h, h2, a, End(B, a)) {
      assert KeepsRange(h, h1, a, End(B, a)) && KeepsRange(h1, h2, a, End(C, a));
    }
  }

  // x is a word of some free block.
  ghost predicate FreeWord(B: Layout, x: int) {
    exists f :: f in B && B[f].free && f <= x < End(B, f)
  }

  ghost predicate FreeWords(B: Layout, W: set<int>) {
    forall x | x in W :: FreeWord(B, x)
  }

  /** A word strictly between the tags of a free block is nobody's tag and in nobody's live block. */
  lemma FreeInterior(B: Layout, lo: nat, hi: nat, f: nat, x: nat, c: nat)
    requires Tiles(B, lo, hi) && f in B && B[f].free && f < x < End(B, f) - 1 && c in B
    ensures x != c && x != End(B, c) - 1
    ensures !B[c].free ==> !(c <= x < End(B, c))
  {
    assert Apart(B, f, c) && BlockFits(B, lo, hi, c);
  }

  lemma LinkWordInterior(B: Layout, lo: nat, hi: nat, n: nat, F: set<int>, x: nat, c: nat)
    requires Tiles(B, lo, hi) && F <= Frees(B) && n < lo && LinkWord(n, F, x) && c in B
    ensures x != c && x != End(B, c) - 1
    ensures !B[c].free ==> !(c <= x < End(B, c))
  {
    assert BlockFits(B, lo, hi, c);
    if x - 1 in F {
      assert BlockFits(B, lo, hi, x - 1);
      FreeInterior(B, lo, hi, x - 1, x, c);
    } else if x - 2 in F {
      assert BlockFits(B, lo, hi, x - 2);
      FreeInterior(B, lo, hi, x - 2, x, c);
    }
  }

  lemma FrameTag(h: seq<Word>, h': seq<Word>, B: Layout, lo: nat, hi: nat, n: nat, F: set<int>, W: set<int>, c: nat)
    requires Tiles(B, lo, hi) && F <= Frees(B) && n < lo && Frame(h, h', n, F, W)
    requires c in B && TaggedAt(h, B, c) && c !in W && End(B, c) - 1 !in W
    ensures TaggedAt(h', B, c)
  {
    if LinkWord(n, F, c) {
      LinkWordInterior(B, lo, hi, n, F, c, c);
    }
    if LinkWord(n, F, End(B, c) - 1) {
      LinkWordInterior(B, lo, hi, n, F, End(B, c) - 1, c);
    }
  }

  lemma FrameTagged(h: seq<Word>, h': seq<Word>, B: Layout, lo: nat, hi: nat, n: nat, F: set<int>)
    requires Tiles(B, lo, hi) && F <= Frees(B) && n < lo && Frame(h, h', n, F, {}) && Tagged(h, B)
    ensures Tagged(h', B)
  {
    forall c | c in B ensures TaggedAt(h', B, c) {
      assert TaggedAt(h, B, c);
      FrameTag(h, h', B, lo, hi, n, F, {}, c);
    }
  }

  lemma FreeWordNotLive(B: Layout, lo: nat, hi: nat, x: int, c: nat)
    requires Tiles(B, lo, hi) && FreeWord(B, x) && c in B && !B[c].free
    ensures !(c <= x < End(B, c))
  {
    var f :| f in B && B[f].free && f <= x < End(B, f);
    assert Apart(B, f, c);
  }

  /** Writes confined to link words and words of free blocks leave every live block alone. */
  lemma FrameLive(h: seq<Word>, h': seq<Word>, B: Layout, lo: nat, hi: nat, n: nat, F: set<int>, W: set<int>)
    requires Tiles(B, lo, hi) && hi <= |h| && F <= Frees(B) && n < lo && Frame(h, h', n, F, W) && FreeWords(B, W)
    ensures KeepsLive(h, h', B)
  {
    forall c | c in B && !B[c].free ensures KeepsRange(h, h', c, End(B, c)) {
      assert BlockFits(B, lo, hi, c);
      forall i | c <= i < End(B, c) ensures h'[i] == h[i] {
        if LinkWord(n, F, i) {
          LinkWordInterior(B, lo, hi, n, F, i, c);
        }
        if i in W {
          FreeWordNotLive(B, lo, hi, i, c);
        }
      }
    }
  }

  /** C is B with some free blocks merged into m: every other block of C is a block of B. */
  ghost predicate Coarser(C: Layout, B: Layout, m: nat) {
    && m in C && C[m].free && m in B && B[m].free
    && forall c {:trigger c in C} | c in C && c != m :: c in B && C[c] == B[c]
  }

  /** Rewriting the outer two tags of a merged block is all it takes to tag the merged layout. */
  lemma MergedTags(h: seq<Word>, h': seq<Word>, B: Layout, C: Layout, lo: nat, hi: nat, n: nat, m: nat, g: nat)
    requires Tiles(B, lo, hi) && n < lo && Tagged(h, B) && Coarser(C, B, m) && Tiles(C, lo, hi)
    requires g in B && B[g].free && End(B, g) == End(C, m) && (g == m || g !in C)
    requires Frame(h, h', n, Frees(B), {m, End(C, m) - 1})
    requires TaggedAt(h', C, m)
    ensures Tagged(h', C)
  {
    var e := End(C, m);
    forall c | c in C ensures TaggedAt(h', C, c) {
      if c != m {
        assert TaggedAt(h, B, c);
        assert BlockFits(B, lo, hi, c) && BlockFits(B, lo, hi, g) && BlockFits(B, lo, hi, m);
        assert Apart(B, c, g) && Apart(B, c, m);
        FrameTag(h, h', B, lo, hi, n, Frees(B), {m, e - 1}, c);
      }
    }
  }

  /** What the words on either side of block a say about its neighbours. */
  lemma NeighbourTags(h: seq<Word>, B: Layout, lo: nat, hi: nat, a: nat)
    requires Tiles(B, lo, hi) && Tagged(h, B) && a in B
    ensures a < |h| && h[a] == Tag(B[a]) && SizeInWords(h[a]) == B[a].words && BlockSize(h[a]) == 4 * B[a].words
    ensures B[a].words >= 4 && lo <= a && End(B, a) <= hi
    ensures a == lo ==> !HasLeft(B, a)
    ensures a > lo ==> HasLeft(B, a) && h[a - 1] == Tag(B[Left(B, a)]) && SizeInWords(h[a - 1]) == a - Left(B, a)
    ensures a > lo ==> (BlockFree(h[a - 1]) == 0 <==> LeftFree(B, a))
    ensures End(B, a) < hi ==> End(B, a) in B && End(B, a) < |h| && (BlockFree(h[End(B, a)]) == 0 <==> RightFree(B, a))
  {
    assert BlockFits(B, lo, hi, a) && TaggedAt(h, B, a);
    TagParts(B[a], h[a]);
    if a > lo {
      var p := FindLeft(B, lo, hi, lo, a);
      p := Left(B, a);
      assert BlockFits(B, lo, hi, p) && TaggedAt(h, B, p);
      TagParts(B[p], h[a - 1]);
    }
    assert HasLeft(B, a) ==> BlockFits(B, lo, hi, Left(B, a));
    if End(B, a) < hi {
      var n := End(B, a);
      assert BlockFits(B, lo, hi, n) && TaggedAt(h, B, n);
      TagParts(B[n], h[n]);
    }
  }

  // ---- Merging in memory -----------------------------------------------------

  /** The two writes of a merge: the outer tags get the total size. */
  ghost predicate MergeTagged(h: seq<Word>, h1: seq<Word>, B: Layout, a: nat)
    requires a in B && MergeLast(B, a) in B
  {
    var m, e := MergeStart(B, a), End(B, MergeLast(B, a));
    && Wrote(h, h1, {m, e - 1})
    && m < e <= |h|
    && h1[m] == h1[e - 1] == 4 * (e - m)
  }

  lemma FrameTrans(h: seq<Word>, h1: seq<Word>, h2: seq<Word>, n: nat, F: set<int>, G: set<int>, W: set<int>)
    requires Frame(h, h1, n, F, W) && Frame(h1, h2, n, G, {}) && G <= F
    ensures Frame(h, h2, n, F, W)
  {
    forall i | 0 <= i < |h| && i !in W && !LinkWord(n, F, i) ensures h2[i] == h[i] {
      assert !LinkWord(n, G, i);
      assert h1[i] == h[i];
    }
  }

  /** After the two tag writes of a merge, link operations on the old free blocks cannot spoil the result. */
  lemma MergeDone(h: seq<Word>, h1: seq<Word>, h2: seq<Word>, B: Layout, lo: nat, hi: nat, n: nat, a: nat)
    requires Tiles(B, lo, hi) && hi <= |h| && n < lo && Tagged(h, B) && a in B && B[a].free && B[a].words > 0
    requires MergeLast(B, a) in B && MergeTagged(h, h1, B, a) && Frame(h1, h2, n, Frees(B), {})
    ensures Tagged(h2, Coalesce(B, a)) && KeepsLive(h, h2, B)
  {
    var C, m, g := Coalesce(B, a), MergeStart(B, a), MergeLast(B, a);
    var e := End(B, g);
    CoalesceParts(B, lo, hi, a);
    assert BlockFits(B, lo, hi, m) && BlockFits(B, lo, hi, g) && BlockFits(C, lo, hi, m);
    FrameTrans(h, h1, h2, n, Frees(B), Frees(B), {m, e - 1});
    if LinkWord(n, Frees(B), m) {
      LinkWordInterior(B, lo, hi, n, Frees(B), m, m);
    }
    if LinkWord(n, Frees(B), e - 1) {
      LinkWordInterior(B, lo, hi, n, Frees(B), e - 1, g);
    }
    MergedTags(h, h2, B, C, lo, hi, n, m, g);
    assert FreeWord(B, m) && FreeWord(B, e - 1);
    FrameLive(h, h2, B, lo, hi, n, Frees(B), {m, e - 1});
  }

  /** What the merging branches of coalesce read around block a. */
  lemma MergeReads(h: seq<Word>, B: Layout, lo: nat, hi: nat, a: nat)
    requires Tiles(B, lo, hi) && hi <= |h| && Tagged(h, B) && a in B && B[a].free && End(B, a) < hi
    ensures var m, g := MergeStart(B, a), MergeLast(B, a);
      && m in B && g in B && B[m].free && B[g].free
      && lo <= m <= a <= g && g + 4 <= End(B, g) <= |h| && a + 4 <= End(B, a)
      && SizeInWords(h[a]) == B[a].words && BlockSize(h[a]) == 4 * B[a].words
      && (LeftFree(B, a) ==> m + 4 <= a && SizeInWords(h[a - 1]) == a - m && BlockSize(h[m]) == 4 * (a - m))
      && (RightFree(B, a) ==> g == End(B, a) && SizeInWords(h[g]) == B[g].words && BlockSize(h[g]) == 4 * B[g].words)
  {
    NeighbourTags(h, B, lo, hi, a);
    CoalesceParts(B, lo, hi, a);
    NeighbourTags(h, B, lo, hi, MergeStart(B, a));
    NeighbourTags(h, B, lo, hi, MergeLast(B, a));
  }

  // ---- Cutting a block in memory ---------------------------------------------

  /** C is B with block a cut up: the other blocks are the same, and the pieces are tagged in h1. */
  ghost predicate CutInto(h1: seq<Word>, B: Layout, C: Layout, a: nat) {
    && a in B
    && (forall c {:trigger c in B} | c in B && c != a :: c in C && C[c] == B[c])
    && forall c {:trigger c in C} | c in C ::
         (c in B && c != a) || (a <= c && End(C, c) <= End(B, a) && TaggedAt(h1, C, c))
  }

  // Outside the words [a, e) nothing changed.
  ghost predicate WroteWithin(h: seq<Word>, h1: seq<Word>, a: nat, e: nat) {
    && |h1| == |h|
    && forall i {:trigger h1[i]} | 0 <= i < |h| && !(a <= i < e) :: h1[i] == h[i]
  }

  lemma CutTagged(h: seq<Word>, h1: seq<Word>, B: Layout, C: Layout, lo: nat, hi: nat, a: nat)
    requires Tiles(B, lo, hi) && Tagged(h, B) && CutInto(h1, B, C, a) && WroteWithin(h, h1, a, End(B, a))
    ensures Tagged(h1, C)
  {
    forall c | c in C ensures TaggedAt(h1, C, c) {
      if c in B && c != a {
        assert TaggedAt(h, B, c) && BlockFits(B, lo, hi, c) && Apart(B, c, a);
      }
    }
  }

  lemma CutKeeps(h: seq<Word>, h1: seq<Word>, B: Layout, lo: nat, hi: nat, a: nat)
    requires Tiles(B, lo, hi) && hi <= |h| && a in B && WroteWithin(h, h1, a, End(B, a))
    ensures KeepsOthers(h, h1, B, a)
    ensures forall i {:trigger h1[i]} | 0 <= i < |h| && (i < lo || hi <= i) :: h1[i] == h[i]
  {
    assert BlockFits(B, lo, hi, a);
    forall c | c in B && c != a && !B[c].free ensures KeepsRange(h, h1, c, End(B, c)) {
      assert Apart(B, c, a) && BlockFits(B, lo, hi, c);
    }
  }

  // The tag writes of a split.
  ghost predicate SplitTagged(h: seq<Word>, h1: seq<Word>, B: Layout, a: nat, w: nat)
    requires a in B && w + 4 <= B[a].words
  {
    && Wrote(h, h1, {a, a + w - 1, a + w, End(B, a) - 1})
    && TaggedAt(h1, Split(B, a, w), a) && TaggedAt(h1, Split(B, a, w), a + w)
  }

  lemma PlaceDone(h: seq<Word>, h1: seq<Word>, h2: seq<Word>, B: Layout, C: Layout, lo: nat, hi: nat, n: nat, a: nat,
                  W: set<int>)
    requires Tiles(B, lo, hi) && hi <= |h| && Tagged(h, B) && Wrote(h, h1, W) && CutInto(h1, B, C, a) && B[a].free
    requires forall x | x in W :: a <= x < End(B, a)
    requires n < lo && Tiles(C, lo, hi) && Frame(h1, h2, n, Frees(C), {})
    ensures Tagged(h2, C) && KeepsLive(h, h2, B)
    ensures forall i | 0 <= i < lo && i < |h| && !(2 <= i <= n) :: h2[i] == h[i]
  {
    CutTagged(h, h1, B, C, lo, hi, a);
    FrameTagged(h1, h2, C, lo, hi, n, Frees(C));
    FrameLive(h1, h2, C, lo, hi, n, Frees(C), {});
    assert BlockFits(B, lo, hi, a);
    forall c | c in B && !B[c].free ensures KeepsRange(h, h2, c, End(B, c)) {
      assert Apart(B, c, a) && BlockFits(B, lo, hi, c);
      assert KeepsRange(h1, h2, c, End(C, c));
    }
    FreesSparse(C, lo, hi);
  }

  lemma MarkFacts(B: Layout, lo: nat, hi: nat, a: nat)
    requires Tiles(B, lo, hi) && a in B && B[a].free
    ensures Tiles(Mark(B, a, false), lo, hi) && Frees(Mark(B, a, false)) == Frees(B) - {a}
    ensures B[a].words >= 4 && End(B, a) <= hi && End(Mark(B, a, false), a) == End(B, a)
  {
    MarkTiles(B, lo, hi, a, false);
    assert BlockFits(B, lo, hi, a);
  }

  lemma SplitFacts(B: Layout, lo: nat, hi: nat, a: nat, w: nat)
    requires Tiles(B, lo, hi) && a in B && B[a].free && 4 <= w && w % 2 == 0 && w + 4 <= B[a].words
    ensures a + w !in B && Tiles(Split(B, a, w), lo, hi)
    ensures Frees(Split(B, a, w)) == Frees(B) - {a} + {a + w}
    ensures Sparse(Frees(Split(B, a, w)), lo) && ClearOf(Frees(B) - {a}, a + w)
    ensures End(B, a) <= hi
  {
    SplitTiles(B, lo, hi, a, w);
    FreesSparse(Split(B, a, w), lo, hi);
    assert BlockFits(B, lo, hi, a);
    forall f | f in Frees(B) - {a} ensures Far(f, a + w) && f != a + w {
      assert f in Frees(Split(B, a, w)) && a + w in Frees(Split(B, a, w));
    }
  }
}
