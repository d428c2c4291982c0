/** Layouts in which no two neighbouring blocks are both free: what always coalescing buys. */
module Fragmentation {
  import opened Blocks

  ghost predicate NoAdjacentFree(B: Layout) {
    forall a {:trigger RightFree(B, a)} | a in B && B[a].free :: !RightFree(B, a)
  }

  // The same, but free block a may have free neighbours.
  ghost predicate NoAdjacentFreeBut(B: Layout, a: nat) {
    forall b {:trigger RightFree(B, b)} | b in B && B[b].free && b != a && End(B, b) != a :: !RightFree(B, b)
  }

  lemma PlaceKeeps(B: Layout, lo: nat, hi: nat, a: nat, w: nat)
    requires Tiles(B, lo, hi) && NoAdjacentFree(B) && a in B && B[a].free && 4 <= w <= B[a].words && w % 2 == 0
    ensures NoAdjacentFree(Place(B, a, w))
  {
    var C := Place(B, a, w);
    assert BlockFits(B, lo, hi, a) && !RightFree(B, a);
    if Splits(B, a, w) {
      NoHeaderInside(B, lo, hi, a, a + w);
    }
    forall b | b in C && C[b].free ensures !RightFree(C, b) {
      if b in B {
        assert !RightFree(B, b) && Apart(B, a, b) && BlockFits(B, lo, hi, b);
      }
    }
  }

  lemma ExtendKeeps(B: Layout, lo: nat, hi: nat, w: nat)
    requires Tiles(B, lo, hi) && NoAdjacentFree(B) && hi !in B && w > 0
    ensures NoAdjacentFreeBut(B[hi := Block(w, true)], hi)
  {
    var C := B[hi := Block(w, true)];
    forall b | b in C && C[b].free && b != hi && End(C, b) != hi ensures !RightFree(C, b) {
      assert !RightFree(B, b);
    }
  }

  lemma MarkKeeps(B: Layout, lo: nat, hi: nat, a: nat)
    requires Tiles(B, lo, hi) && NoAdjacentFree(B) && a in B
    ensures NoAdjacentFreeBut(Mark(B, a, true), a)
  {
    var C := Mark(B, a, true);
    forall b | b in C && C[b].free && b != a && End(C, b) != a ensures !RightFree(C, b) {
      assert !RightFree(B, b);
    }
  }

  /** Coalescing repairs the only place where free blocks may touch. */
  lemma CoalesceRepairs(B: Layout, lo: nat, hi: nat, a: nat)
    requires Tiles(B, lo, hi) && a in B && B[a].free && NoAdjacentFreeBut(B, a)
    ensures B[a].words > 0 && NoAdjacentFree(Coalesce(B, a))
  {
    CoalesceParts(B, lo, hi, a);
    var C, m, g := Coalesce(B, a), MergeStart(B, a), MergeLast(B, a);
    forall b | b in C && C[b].free ensures !RightFree(C, b) {
      if b == m {
        RightOfMerge(B, lo, hi, a);
      } else {
        LeftOfMerge(B, lo, hi, a, b);
      }
    }
  }

  lemma RightOfMerge(B: Layout, lo: nat, hi: nat, a: nat)
    requires Tiles(B, lo, hi) && a in B && B[a].free && NoAdjacentFreeBut(B, a)
    ensures B[a].words > 0 && MergeStart(B, a) in Coalesce(B, a) && !RightFree(Coalesce(B, a), MergeStart(B, a))
  {
    CoalesceParts(B, lo, hi, a);
    var g := MergeLast(B, a);
    assert BlockFits(B, lo, hi, g) && BlockFits(B, lo, hi, a);
    assert g != a ==> !RightFree(B, g);
  }

  lemma LeftOfMerge(B: Layout, lo: nat, hi: nat, a: nat, b: nat)
    requires Tiles(B, lo, hi) && a in B && B[a].free && NoAdjacentFreeBut(B, a) && B[a].words > 0
    requires b in Coalesce(B, a) && Coalesce(B, a)[b].free && b != MergeStart(B, a)
    ensures !RightFree(Coalesce(B, a), b)
  {
    CoalesceParts(B, lo, hi, a);
    var C, m := Coalesce(B, a), MergeStart(B, a);
    if RightFree(C, b) {
      var n := End(C, b);
      assert n in B && B[n].free;
      assert RightFree(B, b);
      assert b == a || End(B, b) == a;
      LeftIs(B, lo, hi, b, a);
    }
  }

  /** Freeing what was just placed restores the layout exactly: place and coalesce are inverse. */
  lemma PlaceThenFree(B: Layout, lo: nat, hi: nat, a: nat, w: nat)
    requires Tiles(B, lo, hi) && NoAdjacentFree(B) && a in B && B[a].free && 4 <= w <= B[a].words && w % 2 == 0
    ensures B[a].words > 0 && a in Place(B, a, w) && Place(B, a, w)[a].words > 0
    ensures Coalesce(Mark(Place(B, a, w), a, true), a) == B
  {
    var C := Mark(Place(B, a, w), a, true);
    assert BlockFits(B, lo, hi, a) && !RightFree(B, a);
    if Splits(B, a, w) {
      NoHeaderInside(B, lo, hi, a, a + w);
      assert RightFree(C, a);
      assert JoinRight(C, a) == B;
    } else {
      assert C == B;
    }
    assert LeftFree(B, a) ==> !RightFree(B, Left(B, a));
  }

  /** With every block free and none adjacent, the whole range is a single free block. */
  lemma AllFreeIsOne(B: Layout, lo: nat, hi: nat)
    requires Tiles(B, lo, hi) && lo < hi && NoAdjacentFree(B) && Live(B) == map[]
    ensures B == map[lo := Block(hi - lo, true)]
  {
    assert forall a | a in B :: B[a].free by {
      forall a | a in B ensures B[a].free {
        assert a !in Live(B);
      }
    }
    assert BlockFits(B, lo, hi, lo) && !RightFree(B, lo);
    forall a | a in B ensures a == lo {
      assert BlockFits(B, lo, hi, a) && Apart(B, lo, a);
    }
  }
}
