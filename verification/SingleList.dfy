/** The one free list of mm-explicit.c as a value: which blocks it holds, in which order, and the words that link it. */
module SingleList {
  import opened Words
  import opened Blocks
  import opened Links
  import opened Sequences
  import opened Tags

  // heap_ptr after mm_init: the prologue header. The word behind it holds the first link.
  const HEAP_PTR := 1
  const LINK := 2
  // The epilogue word, which ends the list; real blocks start right behind it.
  const EPILOGUE := 4
  const FIRST_BLOCK := 5

  const HEAD: Head := Head(HEAP_PTR, LINK, EPILOGUE)

  /** The list holds each block of F outside `out` exactly once. */
  ghost predicate Listed(F: set<int>, s: seq<nat>, out: set<int>) {
    && Lists(s, F)
    && (forall k {:trigger s[k]} | 0 <= k < |s| :: s[k] !in out)
    && (forall a {:trigger IsListed(s, a)} | a in F && a !in out :: IsListed(s, a))
  }

  ghost predicate IsListed(s: seq<nat>, a: int) {
    exists k {:trigger s[k]} :: 0 <= k < |s| && s[k] == a
  }

  // The free bits that the list code tests: set in the epilogue, clear in every free block.
  ghost predicate Parity(h: seq<Word>, F: set<int>) {
    && EPILOGUE < |h| && h[EPILOGUE] == 1
    && forall f {:trigger f in F} | f in F :: 0 <= f && f + 2 < |h| && h[f] % 2 == 0
  }

  ghost predicate Shape(h: seq<Word>, F: set<int>, s: seq<nat>, out: set<int>) {
    Listed(F, s, out) && Chain(h, HEAD, s) && Sparse(F, FIRST_BLOCK)
  }

  /** Everything the list code relies on, for the free blocks F except those in `out`. */
  ghost predicate Wired(h: seq<Word>, F: set<int>, s: seq<nat>, out: set<int>) {
    Shape(h, F, s, out) && Parity(h, F)
  }

  lemma ParityFrame(h: seq<Word>, h': seq<Word>, F: set<int>, G: set<int>)
    requires Sparse(F, FIRST_BLOCK) && G <= F && Parity(h, G) && Frame(h, h', LINK, F, {})
    ensures Parity(h', G)
  {
    forall f | f in G ensures 0 <= f && f + 2 < |h'| && h'[f] % 2 == 0 {
      assert f - 1 in F ==> Far(f, f - 1);
      assert f - 2 in F ==> Far(f, f - 2);
    }
    assert !LinkWord(LINK, F, EPILOGUE);
  }

  // ---- removeBlock -----------------------------------------------------------

  lemma RemoveListed(F: set<int>, s: seq<nat>, out: set<int>, k: nat)
    requires Listed(F, s, out) && k < |s|
    ensures Listed(F, Without(s, s[k]), out + {s[k]}) && Removed(s, k, Without(s, s[k]))
  {
    var t := Without(s, s[k]);
    WithoutRemoved(s, F, k);
    forall a | a in F && a !in out + {s[k]} ensures IsListed(t, a) {
      assert IsListed(s, a);
      WithoutKeeps(s, s[k], a);
      var j :| 0 <= j < |t| && t[j] == a;
    }
  }

  lemma RemoveFrame(h: seq<Word>, h': seq<Word>, F: set<int>, s: seq<nat>, k: nat)
    requires Lists(s, F) && k < |s| && Unlinked(h, h', HEAD, s, k)
    ensures Frame(h, h', LINK, F, {}) && Frame(h, h', LINK, F - {s[k]}, {})
  {
    assert k > 0 ==> s[k - 1] in F - {s[k]};
    assert k + 1 < |s| ==> s[k + 1] in F - {s[k]};
  }

  lemma RemoveShape(h: seq<Word>, h': seq<Word>, F: set<int>, s: seq<nat>, out: set<int>, k: nat)
    requires Shape(h, F, s, out) && k < |s| && Unlinked(h, h', HEAD, s, k)
    ensures Shape(h', F, Without(s, s[k]), out + {s[k]})
    ensures Frame(h, h', LINK, F, {}) && Frame(h, h', LINK, F - {s[k]}, {})
  {
    var a := s[k];
    RemoveListed(F, s, out, k);
    RemoveFrame(h, h', F, s, k);
    ChainRemove(h, h', HEAD, s, F, k, Without(s, a));
  }

  // Everything removeBlock relies on when it reads and rewrites the links around element k of s.
  ghost predicate UnlinkReads(h: seq<Word>, s: seq<nat>, k: nat) {
    && k < |s| && EPILOGUE < |h|
    && FIRST_BLOCK <= s[k] < |h| - 2
    && h[s[k] + 1] == At(s, k + 1, EPILOGUE)
    && h[s[k] + 2] == Before(s, k, HEAP_PTR)
    && (k > 0 ==> FIRST_BLOCK <= s[k - 1] < |h| - 2 && Far(s[k - 1], s[k]) && s[k - 1] != s[k])
    && (k + 1 < |s| ==> FIRST_BLOCK <= s[k + 1] < |h| - 2 && h[s[k + 1]] % 2 == 0)
    && (k > 0 && k + 1 < |s| ==> Far(s[k - 1], s[k + 1]) && s[k - 1] != s[k + 1])
    && h[EPILOGUE] == 1
  }

  lemma RemoveReads(h: seq<Word>, F: set<int>, s: seq<nat>, out: set<int>, a: nat) returns (k: nat)
    requires Shape(h, F, s, out) && Parity(h, F - {a}) && a in F && a !in out
    ensures k < |s| && s[k] == a && UnlinkReads(h, s, k)
  {
    assert IsListed(s, a);
    k :| 0 <= k < |s| && s[k] == a;
    assert ChainAt(h, HEAD, s, k);
    assert k > 0 ==> ChainAt(h, HEAD, s, k - 1) && Far(s[k - 1], s[k]);
    assert k + 1 < |s| ==> s[k + 1] in F - {a};
    assert k > 0 && k + 1 < |s| ==> Far(s[k - 1], s[k + 1]);
  }

  // ---- placeFreeBlock --------------------------------------------------------

  lemma PushWired(h: seq<Word>, h': seq<Word>, F: set<int>, s: seq<nat>, out: set<int>, a: nat)
    requires Wired(h, F, s, out) && a in F && a in out && Pushed(h, h', HEAD, s, a)
    ensures Wired(h', F, [a] + s, out - {a}) && Frame(h, h', LINK, F, {})
  {
    var t := [a] + s;
    assert forall j | 0 < j < |t| :: t[j] == s[j - 1];
    assert s != [] ==> s[0] in F;
    ChainPush(h, h', HEAD, s, F, a);
    forall b | b in F && b !in out - {a} ensures IsListed(t, b) {
      assert t[0] == a;
      if b != a {
        assert IsListed(s, b);
        var k :| 0 <= k < |s| && s[k] == b;
        assert t[k + 1] == b;
      }
    }
    ParityFrame(h, h', F, F);
  }

  lemma PushReads(h: seq<Word>, F: set<int>, s: seq<nat>, out: set<int>, a: nat)
    requires Wired(h, F, s, out) && a in F && a in out
    ensures FIRST_BLOCK <= a < |h| - 2 && EPILOGUE < |h|
    ensures var n := At(s, 0, EPILOGUE); h[LINK] == n && n < |h| && (h[n] % 2 == 0 <==> 0 < |s|)
    ensures 0 < |s| ==> s[0] + 2 < |h| && s[0] >= FIRST_BLOCK && Far(a, s[0]) && a != s[0]
  {
    if s != [] {
      assert ChainAt(h, HEAD, s, 0);
    }
  }

  // ---- Substitution in place -------------------------------------------------

  lemma SubstituteListed(F: set<int>, s: seq<nat>, k: nat, b: nat, G: set<int>, t: seq<nat>)
    requires Listed(F, s, {}) && k < |s| && b !in F && G == F - {s[k]} + {b} && t == s[k := b]
    ensures Listed(G, t, {}) && Replace(s, s[k], b) == t
  {
    ReplaceAt(s, k, b);
    forall c | c in G ensures IsListed(t, c) {
      if c == b {
        assert t[k] == b;
      } else {
        assert IsListed(s, c);
        var m :| 0 <= m < |s| && s[m] == c;
        assert t[m] == c;
      }
    }
  }

  lemma SubstituteShape(h: seq<Word>, h': seq<Word>, F: set<int>, s: seq<nat>, k: nat, b: nat, G: set<int>, t: seq<nat>)
    requires Shape(h, F, s, {}) && k < |s| && b !in F && G == F - {s[k]} + {b} && Sparse(G, FIRST_BLOCK)
    requires Replaced(h, h', HEAD, s, k, b) && t == s[k := b]
    ensures Shape(h', G, t, {}) && Replace(s, s[k], b) == t
    ensures Frame(h, h', LINK, G, {})
  {
    SubstituteListed(F, s, k, b, G, t);
    assert t[k] in G;
    assert k > 0 ==> t[k - 1] == s[k - 1] && s[k - 1] in G;
    assert k + 1 < |s| ==> t[k + 1] == s[k + 1] && s[k + 1] in G;
    ChainReplace(h, h', HEAD, s, G, k, b);
    SubstituteFrame(h, h', s, k, b, G);
  }

  lemma SubstituteFrame(h: seq<Word>, h': seq<Word>, s: seq<nat>, k: nat, b: nat, G: set<int>)
    requires k < |s| && Replaced(h, h', HEAD, s, k, b) && b in G
    requires (k > 0 ==> s[k - 1] in G) && (k + 1 < |s| ==> s[k + 1] in G)
    ensures Frame(h, h', LINK, G, {})
  {
  }

  // ---- Changes of layout -----------------------------------------------------

  /** Blocks that are not in the list may disappear. */
  lemma Rewire(h: seq<Word>, F: set<int>, G: set<int>, s: seq<nat>, out: set<int>)
    requires Wired(h, F, s, out) && G <= F && F - G <= out
    ensures Wired(h, G, s, out * G)
  {
    forall a | a in G && a !in out * G ensures IsListed(s, a) {
      assert IsListed(s, a);
    }
  }

  /** Writes that miss the links and headers of the free blocks disturb nothing of the list. */
  lemma OutsideWrites(h: seq<Word>, h1: seq<Word>, F: set<int>, s: seq<nat>, out: set<int>)
    requires Wired(h, F, s, out) && |h1| == |h| && h1[LINK] == h[LINK] && h1[EPILOGUE] == h[EPILOGUE]
    requires forall f {:trigger f in F} | f in F :: h1[f] % 2 == 0 && h1[f + 1] == h[f + 1] && h1[f + 2] == h[f + 2]
    ensures Wired(h1, F, s, out)
  {
    forall k | 0 <= k < |s| && s[k] + 2 < |h| ensures h1[s[k] + 1] == h[s[k] + 1] && h1[s[k] + 2] == h[s[k] + 2] {
      assert s[k] in F;
    }
    ChainFrame(h, h1, HEAD, s);
  }

  /** The tag writes of a merge do not disturb the list. */
  lemma MergeTagsWired(h: seq<Word>, h1: seq<Word>, B: Layout, hi: nat, a: nat, s: seq<nat>, out: set<int>)
    requires Tiles(B, FIRST_BLOCK, hi) && a in B && B[a].free && MergeLast(B, a) in B
    requires Wired(h, Frees(B), s, out) && MergeTagged(h, h1, B, a)
    ensures Wired(h1, Frees(B), s, out)
  {
    var F, m, g := Frees(B), MergeStart(B, a), MergeLast(B, a);
    var e := End(B, g);
    CoalesceParts(B, FIRST_BLOCK, hi, a);
    assert BlockFits(B, FIRST_BLOCK, hi, m) && BlockFits(B, FIRST_BLOCK, hi, g);
    ModTwo(h1[m], 2 * (e - m), 0);
    forall f | f in F ensures h1[f] % 2 == 0 && h1[f + 1] == h[f + 1] && h1[f + 2] == h[f + 2] {
      assert Far(f, m);
      assert Apart(B, f, g) && BlockFits(B, FIRST_BLOCK, hi, f);
    }
    OutsideWrites(h, h1, F, s, out);
  }

  // The list once the free neighbours to be merged are off it.
  ghost function Unlisted(B: Layout, s: seq<nat>, a: nat): seq<nat>
    requires a in B
  {
    var t := if LeftFree(B, a) then Without(s, Left(B, a)) else s;
    if RightFree(B, a) then Without(t, End(B, a)) else t
  }

  /**
   * What coalesce does to the list. A block merged only with its left neighbour keeps that neighbour's place; in every
   * other case the result goes to the front.
   */
  ghost function FreedList(B: Layout, s: seq<nat>, hi: nat, a: nat): seq<nat>
    requires a in B
  {
    if End(B, a) == hi then [a] + s
    else if LeftFree(B, a) && !RightFree(B, a) then s
    else [MergeStart(B, a)] + Unlisted(B, s, a)
  }

  /** C and t are what coalescing and listing free block a turns B and s into. */
  ghost predicate Merged(B: Layout, s: seq<nat>, C: Layout, t: seq<nat>, hi: nat, a: nat) {
    && a in B && B[a].words > 0
    && C == Freed(B, hi, a)
    && t == FreedList(B, s, hi, a)
  }

  /** C and t are what allocating w words in free block a turns B and s into. */
  ghost predicate Placed(B: Layout, s: seq<nat>, C: Layout, t: seq<nat>, a: nat, w: nat) {
    && a in B && w <= B[a].words
    && C == Place(B, a, w)
    && t == if Splits(B, a, w) then Replace(s, a, a + w) else Without(s, a)
  }

  /** C and t are B and s with a free block of w words added at hi. */
  ghost predicate Grown(B: Layout, s: seq<nat>, C: Layout, t: seq<nat>, hi: nat, w: nat) {
    && hi !in B
    && C == B[hi := Block(w, true)]
    && t == [hi] + s
  }

  /** C and t are B and s grown by g words, of which the first w are then allocated. */
  ghost predicate GrownAndPlaced(B: Layout, s: seq<nat>, C: Layout, t: seq<nat>, hi: nat, g: nat, w: nat) {
    Placed(B[hi := Block(g, true)], [hi] + s, C, t, hi, w)
  }

  lemma PlacedInFresh(B: Layout, s: seq<nat>, B1: Layout, s1: seq<nat>, C: Layout, t: seq<nat>, hi: nat, g: nat, w: nat)
    requires Grown(B, s, B1, s1, hi, g) && Placed(B1, s1, C, t, hi, w)
    ensures GrownAndPlaced(B, s, C, t, hi, g, w)
  {
  }

  // h: before a merge; h1: its tags written; h2: its parts off the list.
  ghost predicate Merging(h: seq<Word>, h1: seq<Word>, h2: seq<Word>, B: Layout, hi: nat, a: nat) {
    && |h2| == |h| && hi <= |h|
    && Tiles(B, FIRST_BLOCK, hi) && Tagged(h, B)
    && a in B && B[a].free && B[a].words > 0
    && MergeLast(B, a) in B && MergeTagged(h, h1, B, a)
    && Frame(h1, h2, LINK, Frees(B), {})
  }

  /** The merged layout, with the words around it untouched. */
  lemma MergedIs(h: seq<Word>, h1: seq<Word>, h2: seq<Word>, B: Layout, hi: nat, a: nat)
    requires Merging(h, h1, h2, B, hi, a)
    ensures var C := Coalesce(B, a);
      && Tiles(C, FIRST_BLOCK, hi) && Tagged(h2, C) && Frees(C) <= Frees(B)
      && MergeStart(B, a) in Frees(C) && MergeParts(B, a) * Frees(C) == {MergeStart(B, a)}
      && Frees(B) - Frees(C) <= MergeParts(B, a)
    ensures KeepsLive(h, h2, B)
    ensures forall i | 0 <= i < FIRST_BLOCK && i < |h| && i != LINK :: h2[i] == h[i]
  {
    CoalesceParts(B, FIRST_BLOCK, hi, a);
    MergeDone(h, h1, h2, B, FIRST_BLOCK, hi, LINK, a);
    FreesSparse(B, FIRST_BLOCK, hi);
    assert BlockFits(B, FIRST_BLOCK, hi, MergeStart(B, a)) && BlockFits(B, FIRST_BLOCK, hi, MergeLast(B, a));
  }

  /** Once all parts of a merge are off the list, the merged block can be put on it. */
  lemma RelistReady(h: seq<Word>, h1: seq<Word>, h2: seq<Word>, B: Layout, hi: nat, a: nat, s: seq<nat>)
    requires Merging(h, h1, h2, B, hi, a) && Wired(h2, Frees(B), s, MergeParts(B, a))
    ensures var C, m := Coalesce(B, a), MergeStart(B, a);
      m in Frees(C) && Wired(h2, Frees(C), s, {m})
  {
    MergedIs(h, h1, h2, B, hi, a);
    Rewire(h2, Frees(B), Frees(Coalesce(B, a)), s, MergeParts(B, a));
  }

  lemma RelistDone(h: seq<Word>, h1: seq<Word>, h2: seq<Word>, h3: seq<Word>, B: Layout, hi: nat, a: nat)
    requires Merging(h, h1, h2, B, hi, a) && Frame(h2, h3, LINK, Frees(Coalesce(B, a)), {})
    ensures Tiles(Coalesce(B, a), FIRST_BLOCK, hi) && Tagged(h3, Coalesce(B, a)) && KeepsLive(h, h3, B)
    ensures forall i | 0 <= i < FIRST_BLOCK && i < |h| && i != LINK :: h3[i] == h[i]
  {
    MergedIs(h, h1, h2, B, hi, a);
    FrameTrans(h1, h2, h3, LINK, Frees(B), Frees(Coalesce(B, a)), {});
    MergedIs(h, h1, h3, B, hi, a);
  }

  /** Merging left only: the two tag writes are all there is to do, since the left neighbour is listed already. */
  lemma LeftMergeDone(h: seq<Word>, h1: seq<Word>, B: Layout, hi: nat, a: nat, s: seq<nat>)
    requires Tiles(B, FIRST_BLOCK, hi) && hi <= |h| && Tagged(h, B) && a in B && B[a].free && B[a].words > 0
    requires LeftFree(B, a) && !RightFree(B, a) && MergeTagged(h, h1, B, a) && Wired(h, Frees(B), s, {a})
    ensures var C := Coalesce(B, a);
      Tiles(C, FIRST_BLOCK, hi) && Tagged(h1, C) && Wired(h1, Frees(C), s, {})
    ensures KeepsLive(h, h1, B)
    ensures forall i | 0 <= i < FIRST_BLOCK && i < |h| && i != LINK :: h1[i] == h[i]
  {
    var C := Coalesce(B, a);
    CoalesceParts(B, FIRST_BLOCK, hi, a);
    MergedIs(h, h1, h1, B, hi, a);
    MergeTagsWired(h, h1, B, hi, a, s, {a});
    assert Frees(B) - Frees(C) <= {a as int} && {a as int} * Frees(C) == {};
    Rewire(h1, Frees(B), Frees(C), s, {a});
  }

  // ---- Allocating -------------------------------------------------------------

  /** Writing words of a free block, except its links, disturbs only that block's header. */
  lemma InBlockWrites(h: seq<Word>, h1: seq<Word>, B: Layout, hi: nat, a: nat, s: seq<nat>, W: set<int>)
    requires Tiles(B, FIRST_BLOCK, hi) && a in B && B[a].free && Wired(h, Frees(B), s, {}) && Wrote(h, h1, W)
    requires forall x | x in W :: x == a || a + 3 <= x < End(B, a)
    ensures Shape(h1, Frees(B), s, {}) && Parity(h1, Frees(B) - {a})
  {
    var F := Frees(B);
    assert BlockFits(B, FIRST_BLOCK, hi, a);
    forall f | f in F
      ensures f + 2 < |h1| && h1[f + 1] == h[f + 1] && h1[f + 2] == h[f + 2] && (f != a ==> h1[f] == h[f])
    {
      assert Apart(B, f, a) && BlockFits(B, FIRST_BLOCK, hi, f);
    }
    ChainFrame(h, h1, HEAD, s);
  }

  // Where free block a is in the list once its tags are rewritten, and that its links still read the same.
  lemma PlaceReads(h: seq<Word>, h1: seq<Word>, B: Layout, hi: nat, s: seq<nat>, a: nat, W: set<int>) returns (k: nat)
    requires Tiles(B, FIRST_BLOCK, hi) && a in B && B[a].free && Wired(h, Frees(B), s, {}) && Wrote(h, h1, W)
    requires forall x | x in W :: x == a || a + 3 <= x < End(B, a)
    ensures k < |s| && s[k] == a && UnlinkReads(h1, s, k)
  {
    InBlockWrites(h, h1, B, hi, a, s, W);
    k := RemoveReads(h1, Frees(B), s, {}, a);
  }

  /** Allocating a whole block: its tags are marked, then it leaves the list. */
  lemma PlaceWhole(h: seq<Word>, h1: seq<Word>, h2: seq<Word>, B: Layout, hi: nat, s: seq<nat>, k: nat, a: nat)
    requires Tiles(B, FIRST_BLOCK, hi) && hi <= |h| && Tagged(h, B) && a in B && B[a].free
    requires Wired(h, Frees(B), s, {}) && k < |s| && s[k] == a
    requires Wrote(h, h1, {a, End(B, a) - 1}) && TaggedAt(h1, Mark(B, a, false), a) && Unlinked(h1, h2, HEAD, s, k)
    ensures var C := Mark(B, a, false);
      Tiles(C, FIRST_BLOCK, hi) && Tagged(h2, C) && Wired(h2, Frees(C), Without(s, a), {})
    ensures KeepsLive(h, h2, B)
    ensures forall i | 0 <= i < FIRST_BLOCK && i < |h| && i != LINK :: h2[i] == h[i]
  {
    var C, F := Mark(B, a, false), Frees(B);
    MarkFacts(B, FIRST_BLOCK, hi, a);
    InBlockWrites(h, h1, B, hi, a, s, {a, End(B, a) - 1});
    RemoveShape(h1, h2, F, s, {}, k);
    ParityFrame(h1, h2, F, F - {a});
    assert Shape(h2, Frees(C), Without(s, a), {}) by {
      assert Listed(F, Without(s, a), {} + {a});
      forall b | b in Frees(C) ensures IsListed(Without(s, a), b) {
        assert IsListed(Without(s, a), b);
      }
    }
    PlaceDone(h, h1, h2, B, C, FIRST_BLOCK, hi, LINK, a, {a, End(B, a) - 1});
  }

  // The remainder of block a is clear of the neighbours of a in the list.
  lemma RestIsFar(B: Layout, hi: nat, s: seq<nat>, k: nat, a: nat, b: nat)
    requires Tiles(B, FIRST_BLOCK, hi) && a in B && a + 4 <= b && b + 4 <= End(B, a)
    requires Listed(Frees(B), s, {}) && k < |s| && s[k] == a
    ensures k > 0 ==> ClearBy(s[k - 1], a, b)
    ensures k + 1 < |s| ==> ClearBy(s[k + 1], a, b)
  {
    if k > 0 {
      assert Apart(B, s[k - 1], a) && BlockFits(B, FIRST_BLOCK, hi, s[k - 1]);
    }
    if k + 1 < |s| {
      assert Apart(B, s[k + 1], a) && BlockFits(B, FIRST_BLOCK, hi, s[k + 1]);
    }
  }

  /** Splitting: the remainder, tagged free, takes the place of the block in the list. */
  lemma PlaceSplit(h: seq<Word>, h1: seq<Word>, h2: seq<Word>, B: Layout, hi: nat, s: seq<nat>, k: nat, a: nat, w: nat)
    requires Tiles(B, FIRST_BLOCK, hi) && hi <= |h| && Tagged(h, B) && a in B && B[a].free
    requires Wired(h, Frees(B), s, {}) && k < |s| && s[k] == a
    requires 4 <= w && w % 2 == 0 && w + 4 <= B[a].words && SplitTagged(h, h1, B, a, w)
    requires Replaced(h1, h2, HEAD, s, k, a + w)
    ensures var C := Split(B, a, w);
      a + w !in B && Tiles(C, FIRST_BLOCK, hi) && Tagged(h2, C) && Wired(h2, Frees(C), Replace(s, a, a + w), {})
    ensures KeepsLive(h, h2, B)
    ensures forall i | 0 <= i < FIRST_BLOCK && i < |h| && i != LINK :: h2[i] == h[i]
  {
    var C, W := Split(B, a, w), {a as int, a + w - 1, a + w, End(B, a) - 1};
    SplitFacts(B, FIRST_BLOCK, hi, a, w);
    InBlockWrites(h, h1, B, hi, a, s, W);
    SubstituteShape(h1, h2, Frees(B), s, k, a + w, Frees(C), s[k := a + w]);
    ModTwo(h1[a + w], 2 * (B[a].words - w), 0);
    ParityFrame(h1, h2, Frees(C), Frees(C));
    PlaceDone(h, h1, h2, B, C, FIRST_BLOCK, hi, LINK, a, W);
  }

  // ---- Growing the heap, and freeing ------------------------------------------

  /** A new free block that is not in the list yet. */
  lemma NewBlock(h: seq<Word>, h1: seq<Word>, B: Layout, C: Layout, hi: nat, s: seq<nat>, b: nat)
    requires Wired(h, Frees(B), s, {}) && Tiles(C, FIRST_BLOCK, hi) && hi <= |h1| && |h1| == |h|
    requires b in C && C[b].free && b !in Frees(B) && Frees(C) == Frees(B) + {b} && b < |h1| && h1[b] % 2 == 0
    requires h1[LINK] == h[LINK] && h1[EPILOGUE] == h[EPILOGUE]
    requires forall f {:trigger f in Frees(B)} | f in Frees(B) ::
      h1[f] == h[f] && h1[f + 1] == h[f + 1] && h1[f + 2] == h[f + 2]
    ensures Wired(h1, Frees(C), s, {b})
  {
    OutsideWrites(h, h1, Frees(B), s, {});
    FreesSparse(C, FIRST_BLOCK, hi);
    assert BlockFits(C, FIRST_BLOCK, hi, b);
    forall a | a in Frees(C) && a !in {b as int} ensures IsListed(s, a) {
      assert a in Frees(B);
    }
  }

  /** Tagging the new words as one free block leaves everything else as it was. */
  lemma ExtendWired(h: seq<Word>, h1: seq<Word>, B: Layout, hi: nat, w: nat, s: seq<nat>)
    requires Tiles(B, FIRST_BLOCK, hi) && hi + w <= |h| && Tagged(h, B) && Wired(h, Frees(B), s, {})
    requires w >= 4 && w % 2 == 0 && hi % 2 == 1
    requires Wrote(h, h1, {hi, hi + w - 1}) && h1[hi] == h1[hi + w - 1] == 4 * w
    ensures var C := B[hi := Block(w, true)];
      hi !in B && Tiles(C, FIRST_BLOCK, hi + w) && Tagged(h1, C) && Wired(h1, Frees(C), s, {hi})
    ensures KeepsLive(h, h1, B)
  {
    var C := B[hi := Block(w, true)];
    ExtendTiles(B, FIRST_BLOCK, hi, w);
    forall c | c in B ensures KeepsRange(h, h1, c, End(B, c)) && TaggedAt(h1, C, c) && c + 4 <= hi {
      assert BlockFits(B, FIRST_BLOCK, hi, c) && TaggedAt(h, B, c);
    }
    assert TaggedAt(h1, C, hi);
    assert Frees(C) == Frees(B) + {hi};
    ModTwo(h1[hi], 2 * w, 0);
    NewBlock(h, h1, B, C, hi + w, s, hi);
  }

  /** Marking a live block free, before it is coalesced and listed. */
  lemma FreeWired(h: seq<Word>, h1: seq<Word>, B: Layout, hi: nat, a: nat, s: seq<nat>)
    requires Tiles(B, FIRST_BLOCK, hi) && hi <= |h| && Tagged(h, B) && a in B && !B[a].free
    requires Wired(h, Frees(B), s, {})
    requires Wrote(h, h1, {a, End(B, a) - 1}) && TaggedAt(h1, Mark(B, a, true), a)
    ensures var C := Mark(B, a, true);
      && Tiles(C, FIRST_BLOCK, hi) && Tagged(h1, C) && Wired(h1, Frees(C), s, {a})
      && KeepsLive(h, h1, C)
  {
    var C := Mark(B, a, true);
    MarkTiles(B, FIRST_BLOCK, hi, a, true);
    assert BlockFits(B, FIRST_BLOCK, hi, a);
    CutTagged(h, h1, B, C, FIRST_BLOCK, hi, a);
    CutKeeps(h, h1, B, FIRST_BLOCK, hi, a);
    assert Frees(C) == Frees(B) + {a};
    ModTwo(h1[a], 2 * B[a].words, 0);
    forall f | f in Frees(B) ensures h1[f] == h[f] && h1[f + 1] == h[f + 1] && h1[f + 2] == h[f + 2] {
      assert Apart(B, f, a) && BlockFits(B, FIRST_BLOCK, hi, f);
    }
    NewBlock(h, h1, B, C, hi, s, a);
    forall c | c in C && !C[c].free ensures KeepsRange(h, h1, c, End(C, c)) {
      assert KeepsRange(h, h1, c, End(B, c));
    }
  }

  // ---- Searching -------------------------------------------------------------

  // a is the first block of the list with at least `size` bytes.
  ghost predicate FirstFit(B: Layout, s: seq<nat>, size: nat, a: nat) {
    exists k: nat {:trigger FitsFirst(B, s, size, k)} :: k < |s| && s[k] == a && FitsFirst(B, s, size, k)
  }

  ghost predicate FitsFirst(B: Layout, s: seq<nat>, size: nat, k: nat)
    requires k < |s|
  {
    Fits(B, s[k], size) && forall j {:trigger s[j]} | 0 <= j < k :: !Fits(B, s[j], size)
  }
}
