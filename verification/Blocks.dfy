/** The heap as the caller sees it: blocks that tile a range of words.

    A layout maps the word index of each block header to the block's size and free bit. The operations below
    are what malloc and free mean for a layout, with no words, tags or links in sight. */
module Blocks {

  datatype Block = Block(words: nat, free: bool)

  type Layout = map<nat, Block>

  function End(B: Layout, a: nat): nat
    requires a in B
  {
    a + B[a].words
  }

  /** The blocks of B cover [lo, hi) without gap or overlap. Headers sit on odd words, so payloads are 8-byte
      aligned, and a block has at least four words: two tags and two links. */
  ghost predicate Tiles(B: Layout, lo: nat, hi: nat) {
    && lo <= hi
    && lo % 2 == 1
    && (lo < hi ==> lo in B)
    && (forall a {:trigger BlockFits(B, lo, hi, a)} | a in B :: BlockFits(B, lo, hi, a))
    && (forall a, b {:trigger Apart(B, a, b)} | a in B && b in B :: Apart(B, a, b))
  }

  ghost predicate Apart(B: Layout, a: nat, b: nat)
    requires a in B && b in B
  {
    a == b || End(B, a) <= b || End(B, b) <= a
  }

  ghost predicate BlockFits(B: Layout, lo: nat, hi: nat, a: nat)
    requires a in B
  {
    && lo <= a
    && a % 2 == 1
    && B[a].words >= 4
    && B[a].words % 2 == 0
    && End(B, a) <= hi
    && (End(B, a) < hi ==> End(B, a) in B)
  }

  /** The end of the last block: walk right from the first. */
  lemma {:induction false} FindLast(B: Layout, lo: nat, hi: nat, x: nat) returns (p: nat)
    requires Tiles(B, lo, hi) && x in B
    ensures p in B && End(B, p) == hi
    decreases hi - x
  {
    assert BlockFits(B, lo, hi, x);
    if End(B, x) == hi {
      p := x;
    } else {
      p := FindLast(B, lo, hi, End(B, x));
    }
  }

  lemma TopOdd(B: Layout, lo: nat, hi: nat)
    requires Tiles(B, lo, hi)
    ensures hi % 2 == 1
  {
    if lo < hi {
      var p := FindLast(B, lo, hi, lo);
      assert BlockFits(B, lo, hi, p);
    }
  }

  /** Every block but the first has a left neighbour. */
  lemma {:induction false} FindLeft(B: Layout, lo: nat, hi: nat, x: nat, a: nat) returns (p: nat)
    requires Tiles(B, lo, hi) && x in B && a in B && x < a
    ensures p in B && End(B, p) == a && x <= p < a
    decreases a - x
  {
    assert BlockFits(B, lo, hi, x) && BlockFits(B, lo, hi, a);
    assert Apart(B, x, a);
    if End(B, x) == a {
      p := x;
    } else {
      p := FindLeft(B, lo, hi, End(B, x), a);
    }
  }

  ghost predicate HasLeft(B: Layout, a: nat) {
    exists p :: p in B && End(B, p) == a
  }

  ghost function Left(B: Layout, a: nat): (p: nat)
    requires HasLeft(B, a)
    ensures p in B && End(B, p) == a
  {
    var p :| p in B && End(B, p) == a; p
  }

  ghost predicate LeftFree(B: Layout, a: nat) {
    HasLeft(B, a) && B[Left(B, a)].free
  }

  ghost predicate RightFree(B: Layout, a: nat)
    requires a in B
  {
    End(B, a) in B && B[End(B, a)].free
  }

  lemma LeftIs(B: Layout, lo: nat, hi: nat, p: nat, a: nat)
    requires Tiles(B, lo, hi) && p in B && End(B, p) == a
    ensures HasLeft(B, a) && Left(B, a) == p
  {
    var q := Left(B, a);
    assert BlockFits(B, lo, hi, p) && BlockFits(B, lo, hi, q) && Apart(B, p, q);
  }

  // ---- The walk over all blocks ------------------------------------------------

  // The headers met when stepping from block to block, by size alone, from a up to hi.
  ghost function Walk(B: Layout, lo: nat, hi: nat, a: nat): seq<nat>
    requires Tiles(B, lo, hi) && (a in B || a == hi)
    decreases hi - a
  {
    if a == hi then []
    else
      assert BlockFits(B, lo, hi, a);
      [a] + Walk(B, lo, hi, End(B, a))
  }

  ghost predicate Ascending(s: seq<nat>) {
    forall j, k {:trigger s[j], s[k]} | 0 <= j < k < |s| :: s[j] < s[k]
  }

  ghost function SumWords(B: Layout, s: seq<nat>): nat {
    if s == [] then 0 else (if s[0] in B then B[s[0]].words else 0) + SumWords(B, s[1..])
  }

  /** The walk meets every block from a on exactly once, and their sizes add up to the words from a to hi. */
  lemma {:induction false} WalkVisits(B: Layout, lo: nat, hi: nat, a: nat)
    requires Tiles(B, lo, hi) && (a in B || a == hi)
    ensures var s := Walk(B, lo, hi, a);
      && Ascending(s) && (forall k {:trigger s[k]} | 0 <= k < |s| :: s[k] >= a)
      && (forall x {:trigger x in s} :: x in s <==> x in B && x >= a)
      && SumWords(B, s) == hi - a
    decreases hi - a
  {
    forall x | x in B ensures x < hi && (a in B ==> x <= a || x >= End(B, a)) {
      assert BlockFits(B, lo, hi, x);
      assert a in B ==> Apart(B, a, x);
    }
    if a != hi {
      assert BlockFits(B, lo, hi, a);
      WalkVisits(B, lo, hi, End(B, a));
      assert Walk(B, lo, hi, a)[1..] == Walk(B, lo, hi, End(B, a));
    }
  }

  // ---- Operations ------------------------------------------------------------

  function Mark(B: Layout, a: nat, free: bool): Layout
    requires a in B
  {
    B[a := Block(B[a].words, free)]
  }

  // Allocate the first w words of block a and leave the rest free.
  function Split(B: Layout, a: nat, w: nat): Layout
    requires a in B && w <= B[a].words
  {
    B[a := Block(w, false)][a + w := Block(B[a].words - w, true)]
  }

  predicate Splits(B: Layout, a: nat, w: nat)
    requires a in B
  {
    B[a].words >= w + 4
  }

  // What allocating w words in free block a does: split when at least 16 bytes remain.
  function Place(B: Layout, a: nat, w: nat): Layout
    requires a in B && w <= B[a].words
  {
    if Splits(B, a, w) then Split(B, a, w) else Mark(B, a, false)
  }

  // Merge block a with its right neighbour into one free block.
  function Join(B: Layout, a: nat): Layout
    requires a in B && End(B, a) in B
  {
    (B - {End(B, a)})[a := Block(B[a].words + B[End(B, a)].words, true)]
  }

  ghost function JoinRight(B: Layout, a: nat): Layout
    requires a in B
  {
    if RightFree(B, a) then Join(B, a) else B
  }

  ghost function JoinLeft(B: Layout, a: nat): Layout
    requires a in B
  {
    if LeftFree(B, a) then Join(B, Left(B, a)) else B
  }

  // Boundary-tag coalescing: merge free block a with every free neighbour.
  ghost function Coalesce(B: Layout, a: nat): Layout
    requires a in B && B[a].words > 0
  {
    JoinLeft(JoinRight(B, a), a)
  }

  // ---- Each operation keeps the tiling ---------------------------------------

  lemma MarkTiles(B: Layout, lo: nat, hi: nat, a: nat, free: bool)
    requires Tiles(B, lo, hi) && a in B
    ensures Tiles(Mark(B, a, free), lo, hi)
  {
    var C := Mark(B, a, free);
    forall b | b in C ensures BlockFits(C, lo, hi, b) {
      assert BlockFits(B, lo, hi, b);
    }
    forall b, c | b in C && c in C ensures Apart(C, b, c) {
      assert Apart(B, b, c);
    }
  }

  /** No block starts strictly inside another. */
  lemma NoHeaderInside(B: Layout, lo: nat, hi: nat, a: nat, x: nat)
    requires Tiles(B, lo, hi) && a in B && a < x < End(B, a)
    ensures x !in B
  {
    assert x in B ==> Apart(B, a, x);
    assert x in B ==> BlockFits(B, lo, hi, x);
  }

  lemma SplitTiles(B: Layout, lo: nat, hi: nat, a: nat, w: nat)
    requires Tiles(B, lo, hi) && a in B && 4 <= w && w % 2 == 0 && w + 4 <= B[a].words
    ensures a + w !in B
    ensures Tiles(Split(B, a, w), lo, hi)
  {
    var C := Split(B, a, w);
    assert BlockFits(B, lo, hi, a);
    NoHeaderInside(B, lo, hi, a, a + w);
    forall b | b in C ensures BlockFits(C, lo, hi, b) {
      assert b == a + w || BlockFits(B, lo, hi, b);
    }
    forall b, c | b in C && c in C ensures Apart(C, b, c) {
      SplitApart(B, lo, hi, a, w, b, c);
    }
  }

  lemma SplitApart(B: Layout, lo: nat, hi: nat, a: nat, w: nat, b: nat, c: nat)
    requires Tiles(B, lo, hi) && a in B && a + w !in B && w <= B[a].words
    requires b in Split(B, a, w) && c in Split(B, a, w)
    ensures Apart(Split(B, a, w), b, c)
  {
    assert b == a + w || Apart(B, a, b);
    assert c == a + w || Apart(B, a, c);
    assert b == a + w || c == a + w || Apart(B, b, c);
    assert b == a + w || BlockFits(B, lo, hi, b);
    assert c == a + w || BlockFits(B, lo, hi, c);
  }

  lemma JoinTiles(B: Layout, lo: nat, hi: nat, a: nat)
    requires Tiles(B, lo, hi) && a in B && End(B, a) in B
    ensures Tiles(Join(B, a), lo, hi)
    ensures End(Join(B, a), a) == End(B, End(B, a))
  {
    var C := Join(B, a);
    var n := End(B, a);
    assert BlockFits(B, lo, hi, a) && BlockFits(B, lo, hi, n);
    forall b | b in C ensures BlockFits(C, lo, hi, b) {
      assert BlockFits(B, lo, hi, b);
      assert Apart(B, a, b);
    }
    forall b, c | b in C && c in C ensures Apart(C, b, c) {
      assert Apart(B, b, c) && Apart(B, n, b) && Apart(B, n, c);
      assert BlockFits(B, lo, hi, b) && BlockFits(B, lo, hi, c);
    }
  }

  lemma ExtendTiles(B: Layout, lo: nat, hi: nat, w: nat)
    requires Tiles(B, lo, hi) && hi % 2 == 1 && w >= 4 && w % 2 == 0
    ensures hi !in B
    ensures Tiles(B[hi := Block(w, true)], lo, hi + w)
  {
    var C := B[hi := Block(w, true)];
    assert hi in B ==> BlockFits(B, lo, hi, hi);
    forall b | b in C ensures BlockFits(C, lo, hi + w, b) {
      assert b == hi || BlockFits(B, lo, hi, b);
    }
    forall b, c | b in C && c in C ensures Apart(C, b, c) {
      assert b == hi || BlockFits(B, lo, hi, b);
      assert c == hi || BlockFits(B, lo, hi, c);
      assert b == hi || c == hi || Apart(B, b, c);
    }
  }

  /** Merging right first does not disturb the left neighbour. */
  lemma LeftAfterJoin(B: Layout, lo: nat, hi: nat, a: nat)
    requires Tiles(B, lo, hi) && a in B && End(B, a) in B
    ensures HasLeft(Join(B, a), a) <==> HasLeft(B, a)
    ensures HasLeft(B, a) ==> Left(Join(B, a), a) == Left(B, a) < a && Join(B, a)[Left(B, a)] == B[Left(B, a)]
  {
    var C := Join(B, a);
    var n := End(B, a);
    JoinTiles(B, lo, hi, a);
    assert BlockFits(B, lo, hi, a) && BlockFits(B, lo, hi, n);
    if HasLeft(B, a) {
      var p := Left(B, a);
      assert BlockFits(B, lo, hi, p);
      assert p in C && End(C, p) == a;
      LeftIs(C, lo, hi, p, a);
    }
    if HasLeft(C, a) {
      var p := Left(C, a);
      assert BlockFits(C, lo, hi, p);
      assert p in B && End(B, p) == a;
    }
  }

  lemma CoalesceTiles(B: Layout, lo: nat, hi: nat, a: nat)
    requires Tiles(B, lo, hi) && a in B
    ensures B[a].words > 0
    ensures Tiles(Coalesce(B, a), lo, hi)
    ensures LeftFree(JoinRight(B, a), a) <==> LeftFree(B, a)
    ensures LeftFree(B, a) ==> Left(JoinRight(B, a), a) == Left(B, a) < a
  {
    assert BlockFits(B, lo, hi, a);
    var C := JoinRight(B, a);
    if RightFree(B, a) {
      JoinTiles(B, lo, hi, a);
      LeftAfterJoin(B, lo, hi, a);
    }
    if LeftFree(C, a) {
      assert BlockFits(C, lo, hi, Left(C, a));
      JoinTiles(C, lo, hi, Left(C, a));
    }
  }

  // ---- The merged block ------------------------------------------------------

  // Where the block that coalescing leaves in place of a starts and ends, and its last constituent.
  ghost function MergeStart(B: Layout, a: nat): nat {
    if LeftFree(B, a) then Left(B, a) else a
  }

  ghost function MergeLast(B: Layout, a: nat): nat
    requires a in B
  {
    if RightFree(B, a) then End(B, a) else a
  }

  // The blocks that coalescing turns into one.
  ghost function MergeParts(B: Layout, a: nat): set<int>
    requires a in B
  {
    {MergeStart(B, a), a, MergeLast(B, a)}
  }

  /** Coalescing free block a replaces its parts, all free, by one block that covers exactly their words. */
  lemma CoalesceParts(B: Layout, lo: nat, hi: nat, a: nat)
    requires Tiles(B, lo, hi) && a in B && B[a].free
    ensures B[a].words > 0
    ensures var C, m, g := Coalesce(B, a), MergeStart(B, a), MergeLast(B, a);
      && Tiles(C, lo, hi)
      && m in B && B[m].free && g in B && B[g].free
      && m in C && C[m].free && End(C, m) == End(B, g)
      && m <= a <= g
      && (forall b :: b in C <==> b in B && (b == m || b !in MergeParts(B, a)))
      && (forall b | b in C && b != m :: C[b] == B[b])
      && (forall b | b in B && b in MergeParts(B, a) :: B[b].free)
  {
    CoalesceTiles(B, lo, hi, a);
    assert BlockFits(B, lo, hi, a);
    if RightFree(B, a) {
      JoinTiles(B, lo, hi, a);
      LeftAfterJoin(B, lo, hi, a);
    }
  }

  // ---- The caller's view -----------------------------------------------------

  /** What the caller owns: for each live block, the words of payload that follow its header. */
  function Live(B: Layout): map<nat, int> {
    map a | a in B && !B[a].free :: B[a].words - 2
  }

  /** Live payloads are 8-byte aligned, lie in the heap, hold at least two words and do not overlap. */
  lemma LiveRegions(B: Layout, lo: nat, hi: nat, a: nat, b: nat)
    requires Tiles(B, lo, hi) && a in Live(B) && b in Live(B)
    ensures 4 * (a + 1) % 8 == 0 && lo <= a && a + 1 + Live(B)[a] < hi && Live(B)[a] >= 2
    ensures a < b ==> a + 1 + Live(B)[a] < b
  {
    assert BlockFits(B, lo, hi, a) && BlockFits(B, lo, hi, b) && Apart(B, a, b);
    var k := (a + 1) / 2;
    assert a + 1 == 2 * k;
    assert 4 * (a + 1) == 8 * k;
  }

  lemma LivePlace(B: Layout, a: nat, w: nat)
    requires a in B && B[a].free && w <= B[a].words && (Splits(B, a, w) ==> w > 0 && a + w !in B)
    ensures a !in Live(B)
    ensures Live(Place(B, a, w)) == Live(B)[a := Place(B, a, w)[a].words - 2]
  {
  }

  lemma LiveMark(B: Layout, a: nat)
    requires a in B && !B[a].free
    ensures Live(Mark(B, a, true)) == Live(B) - {a}
  {
  }

  lemma LiveExtend(B: Layout, a: nat, w: nat)
    requires a !in B
    ensures Live(B[a := Block(w, true)]) == Live(B)
  {
  }

  /** Coalescing is invisible to the caller. */
  lemma LiveCoalesce(B: Layout, lo: nat, hi: nat, a: nat)
    requires Tiles(B, lo, hi) && a in B && B[a].free
    ensures B[a].words > 0 && Live(Coalesce(B, a)) == Live(B)
  {
    CoalesceParts(B, lo, hi, a);
    var C, m := Coalesce(B, a), MergeStart(B, a);
    assert forall b :: b in Live(C) <==> b in Live(B);
  }

  // ---- Allocators that do not merge at the heap top ---------------------------

  // A block that ends at the heap top is not merged with its left neighbour.
  ghost function Freed(B: Layout, hi: nat, a: nat): Layout
    requires a in B && B[a].words > 0
  {
    if End(B, a) == hi then B else Coalesce(B, a)
  }

  ghost function FreedAt(B: Layout, hi: nat, a: nat): nat
    requires a in B
  {
    if End(B, a) == hi then a else MergeStart(B, a)
  }

  /** That is less than full coalescing exactly when the block ends at the heap top and its left neighbour is free. */
  lemma FreedIsFull(B: Layout, lo: nat, hi: nat, a: nat)
    requires Tiles(B, lo, hi) && a in B && B[a].free && B[a].words > 0
    ensures Freed(B, hi, a) == Coalesce(B, a) <==> End(B, a) != hi || !LeftFree(B, a)
  {
    CoalesceParts(B, lo, hi, a);
    assert hi in B ==> BlockFits(B, lo, hi, hi);
    if LeftFree(B, a) {
      var p := Left(B, a);
      assert BlockFits(B, lo, hi, p);
      assert a !in Coalesce(B, a);
    }
  }

  lemma PartsAre(B: Layout, a: nat)
    requires a in B
    ensures LeftFree(B, a) && RightFree(B, a) ==>
      {a as int} + {Left(B, a) as int} + {End(B, a) as int} == MergeParts(B, a)
    ensures LeftFree(B, a) && !RightFree(B, a) ==> {a as int} + {Left(B, a) as int} == MergeParts(B, a)
    ensures !LeftFree(B, a) && RightFree(B, a) ==> {a as int} + {End(B, a) as int} == MergeParts(B, a)
  {
  }

  // Block b is free and has at least `size` bytes.
  ghost predicate Fits(B: Layout, b: nat, size: nat) {
    b in B && B[b].free && 4 * B[b].words >= size
  }
}
