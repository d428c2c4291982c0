/** The segregated-fit allocator of mm-seglist.c: boundary tags and nine free lists in one array of words.
    Addresses are word indices; word 0 is 8-byte aligned. */
module Seglist {
  import opened Words
  import opened Blocks
  import opened Links
  import opened Tags
  import opened SegLists
  import opened Requests
  import opened Heap

  const CHUNKSIZE: nat := 256

  /**
   * Allocating `size` bytes at r takes B and L, with the break at hi, to C and M, with the break at hi': in the first
   * fitting block of the lowest class that has one, or in fresh words when none does.
   */
  ghost predicate Allocated(B: Layout, L: FreeLists, hi: nat, C: Layout, M: FreeLists, hi': nat, r: nat, size: nat)
    requires size <= SIZE_MAX
  {
    && r >= 1
    && if exists b :: Fits(B, b, GetMallocSize(size)) then
         && hi' == hi && BestFit(B, L, r - 1, GetMallocSize(size))
         && Placed(B, L, C, M, r - 1, RequestWords(size))
       else
         && r == hi + 1 && hi' == hi + GrowWords(CHUNKSIZE, size)
         && GrownAndPlaced(B, L, C, M, hi, GrowWords(CHUNKSIZE, size), RequestWords(size))
  }

  class Allocator {
    // The region mem_sbrk hands out, and how much of it is in use.
    const mem: array<Word>
    var brk: nat
    // What the words mean: the blocks of the heap and the order of the free lists.
    ghost var B: Layout
    ghost var L: FreeLists

    /** The heap is consistent, but for the free blocks in `out`, which are in no list. */
    ghost predicate Consistent(out: set<int>)
      reads this, mem
    {
      && FIRST_BLOCK <= brk <= mem.Length <= MAX_WORDS
      && mem[HEAP_PTR] == 45 && mem[11] == 45
      && Tiles(B, FIRST_BLOCK, brk)
      && Tagged(mem[..], B)
      && Wired(mem[..], Frees(B), Classes(B), L, out)
    }

    ghost predicate Valid()
      reads this, mem
    {
      Consistent({})
    }

    // Store v as the next link of p, which names a list head or a block.
    method SetNext(p: nat, v: Word)
      requires NextWord(p) < mem.Length
      modifies mem
      ensures mem[..] == old(mem[..])[NextWord(p) := v]
    {
      if HEAP_PTR < p < HEAP_PTR + 10 {
        mem[p] := v;
      } else {
        mem[p + 1] := v;
      }
    }

    /** Unlink `block` from whichever list it is in. */
    method RemoveBlock(block: nat, ghost F: set<int>, ghost cls: map<int, nat>, ghost out: set<int>)
      requires Wired(mem[..], F, cls, L, out) && block in F && block !in out
      modifies mem, `L
      ensures L == Drop(old(L), block)
      ensures Wired(mem[..], F, cls, L, out + {block})
      ensures Frame(old(mem[..]), mem[..], LAST_SLOT, F, {})
    {
      ghost var h := mem[..];
      ghost var i, k := RemoveReads(h, F, cls, L, out, block);
      var p := mem[block + 2];
      var n := mem[block + 1];
      SetNext(p, n);
      if BlockFree(mem[n]) == 0 {
        mem[n + 2] := p;
      }
      assert Unlinked(h, mem[..], SlotHead(i), L[i], k);
      RemoveWired(h, mem[..], F, cls, L, out, i, k);
      L := Drop(L, block);
    }

    /** Put the unlisted free block at the front of the list its header's size selects. */
    method PlaceFreeBlock(block: nat, ghost F: set<int>, ghost cls: map<int, nat>, ghost out: set<int>)
        returns (r: nat)
      requires Wired(mem[..], F, cls, L, out) && block in F && block in out
      requires block in cls && cls[block] == HEAP_PTR + GetSegListIndex(BlockSize(mem[block]))
      requires mem.Length <= MAX_WORDS
      modifies mem, `L
      ensures r == block && L == PushFront(old(L), cls[block], block)
      ensures ListedFirst(old(L), L, old(BlockSize(mem[block])), block)
      ensures Wired(mem[..], F, cls, L, out - {block})
      ensures Frame(old(mem[..]), mem[..], LAST_SLOT, F, {})
    {
      ghost var h := mem[..];
      ghost var i := cls[block];
      PushReads(h, F, cls, L, out, i, block);
      var ptr := HEAP_PTR + GetSegListIndex(BlockSize(mem[block]));
      var next := mem[ptr];
      var prev := ptr;
      mem[block + 1] := next;
      mem[block + 2] := prev;
      SetNext(prev, block);
      if BlockFree(mem[mem[block + 1]]) == 0 {
        mem[mem[block + 1] + 2] := block;
      }
      PushShape(h, mem[..], F, cls, L, out, block);
      ParityFrame(h, mem[..], F, F);
      PushByClass(L, i, BlockSize(h[block]), block);
      L := PushFront(L, i, block);
      r := block;
    }

    static lemma PushReads(h: seq<Word>, F: set<int>, cls: map<int, nat>, L: FreeLists, out: set<int>, i: nat, a: nat)
      requires Wired(h, F, cls, L, out) && 2 <= i <= LAST_SLOT && a in F && a in out
      ensures FIRST_BLOCK <= a < |h| - 2 && EPILOGUE < |h|
      ensures h[i] == At(L[i], 0, EPILOGUE)
      ensures var n := At(L[i], 0, EPILOGUE); n < |h| && (h[n] % 2 == 0 <==> 0 < |L[i]|)
      ensures 0 < |L[i]| ==> L[i][0] + 2 < |h| && L[i][0] >= FIRST_BLOCK && Far(a, L[i][0]) && a != L[i][0]
    {
      assert ListedIn(F, cls, L[i], i, out);
      assert Chain(h, SlotHead(i), L[i]);
      if L[i] != [] {
        assert ChainAt(h, SlotHead(i), L[i], 0);
      }
    }

    /** Merge the free block, which is in no list yet, with its free neighbours and list the result. */
    method Coalesce(block: nat) returns (r: nat)
      requires Consistent({block}) && block in B && B[block].free && B[block].words > 0
      modifies this`B, this`L, mem
      ensures Valid()
      ensures Merged(old(B), old(L), B, L, brk, block) && r == FreedAt(old(B), brk, block)
      ensures KeepsLive(old(mem[..]), mem[..], old(B))
    {
      ghost var h := mem[..];
      NeighbourTags(h, B, FIRST_BLOCK, brk, block);
      if GetFooterEl(mem, block) + 1 >= brk {
        r := ListAlone(block);
        return;
      }
      var prevAlloc := BlockFree(mem[block - 1]);
      var nextAlloc := BlockFree(mem[GetFooterEl(mem, block) + 1]);
      var size := BlockSize(mem[block]);
      if prevAlloc != 0 && nextAlloc != 0 {
        r := ListAlone(block);
      } else if prevAlloc != 0 {
        r := CoalesceNext(block, size);
      } else if nextAlloc != 0 {
        r := CoalescePrev(block, size);
      } else {
        r := CoalesceBoth(block, size);
      }
    }

    // The branches of coalesce that merge nothing.
    method ListAlone(block: nat) returns (r: nat)
      requires Consistent({block}) && block in B && B[block].free
      modifies this`L, mem
      ensures Valid() && r == block
      ensures L == PushFront(old(L), Slot(B[block].words), block)
      ensures KeepsLive(old(mem[..]), mem[..], B)
    {
      ghost var h := mem[..];
      NeighbourTags(h, B, FIRST_BLOCK, brk, block);
      r := PlaceFreeBlock(block, Frees(B), Classes(B), {block});
      FrameTagged(h, mem[..], B, FIRST_BLOCK, brk, LAST_SLOT, Frees(B));
      FrameLive(h, mem[..], B, FIRST_BLOCK, brk, LAST_SLOT, Frees(B), {});
      assert {block as int} - {block} == {};
    }

    // The three merging branches of coalesce.
    method CoalesceNext(block: nat, size: nat) returns (r: nat)
      requires Consistent({block}) && block in B && B[block].free && B[block].words > 0
      requires End(B, block) < brk && !LeftFree(B, block) && RightFree(B, block) && size == 4 * B[block].words
      modifies this`B, this`L, mem
      ensures Valid()
      ensures Merged(old(B), old(L), B, L, brk, block) && r == FreedAt(old(B), brk, block)
      ensures KeepsLive(old(mem[..]), mem[..], old(B))
    {
      ghost var h := mem[..];
      ghost var L0 := L;
      MergeReads(h, B, FIRST_BLOCK, brk, block);
      var next := GetFooterEl(mem, block) + 1;
      var total := size + BlockSize(mem[next]);
      mem[block] := total;
      mem[GetFooterEl(mem, next)] := total;
      ghost var h1 := mem[..];
      MergeTagsWired(h, h1, B, brk, block, Classes(B), L, {block});
      RemoveBlock(next, Frees(B), Classes(B), {block});
      PartsAre(B, block);
      r := Relist(h, h1, L0, {block} + {next}, block, block);
    }

    method CoalescePrev(block: nat, size: nat) returns (r: nat)
      requires Consistent({block}) && block in B && B[block].free && B[block].words > 0
      requires End(B, block) < brk && LeftFree(B, block) && !RightFree(B, block) && size == 4 * B[block].words
      modifies this`B, this`L, mem
      ensures Valid()
      ensures Merged(old(B), old(L), B, L, brk, block) && r == FreedAt(old(B), brk, block)
      ensures KeepsLive(old(mem[..]), mem[..], old(B))
    {
      ghost var h := mem[..];
      ghost var L0 := L;
      MergeReads(h, B, FIRST_BLOCK, brk, block);
      var prev := block - SizeInWords(mem[block - 1]);
      var total := size + BlockSize(mem[prev]);
      mem[prev] := total;
      mem[GetFooterEl(mem, block)] := total;
      ghost var h1 := mem[..];
      MergeTagsWired(h, h1, B, brk, block, Classes(B), L, {block});
      RemoveBlock(prev, Frees(B), Classes(B), {block});
      PartsAre(B, block);
      r := Relist(h, h1, L0, {block} + {prev}, block, prev);
    }

    method CoalesceBoth(block: nat, size: nat) returns (r: nat)
      requires Consistent({block}) && block in B && B[block].free && B[block].words > 0
      requires End(B, block) < brk && LeftFree(B, block) && RightFree(B, block) && size == 4 * B[block].words
      modifies this`B, this`L, mem
      ensures Valid()
      ensures Merged(old(B), old(L), B, L, brk, block) && r == FreedAt(old(B), brk, block)
      ensures KeepsLive(old(mem[..]), mem[..], old(B))
    {
      ghost var h, L0 := mem[..], L;
      var prev, next := WriteBothTags(block, size);
      ghost var h1 := mem[..];
      RemoveBlock(prev, Frees(B), Classes(B), {block});
      ghost var h2 := mem[..];
      RemoveBlock(next, Frees(B), Classes(B), {block} + {prev});
      PartsAre(B, block);
      FrameTrans(h1, h2, mem[..], LAST_SLOT, Frees(B), Frees(B), {});
      r := Relist(h, h1, L0, {block} + {prev} + {next}, block, prev);
    }

    method WriteBothTags(block: nat, size: nat) returns (prev: nat, next: nat)
      requires Consistent({block}) && block in B && B[block].free && B[block].words > 0
      requires End(B, block) < brk && LeftFree(B, block) && RightFree(B, block) && size == 4 * B[block].words
      modifies mem
      ensures prev == Left(B, block) && next == End(B, block) && prev < block < next
      ensures prev in Frees(B) && next in Frees(B)
      ensures MergeTagged(old(mem[..]), mem[..], B, block)
      ensures Wired(mem[..], Frees(B), Classes(B), L, {block})
    {
      ghost var h := mem[..];
      MergeReads(h, B, FIRST_BLOCK, brk, block);
      next := GetFooterEl(mem, block) + 1;
      prev := block - SizeInWords(mem[block - 1]);
      var total := size + (BlockSize(mem[prev]) + BlockSize(mem[next]));
      mem[prev] := total;
      mem[GetFooterEl(mem, next)] := total;
      MergeTagsWired(h, mem[..], B, brk, block, Classes(B), L, {block});
    }

    /** All parts of the merge around `block` are off the lists and its tags are written: list the result. */
    method Relist(ghost h: seq<Word>, ghost h1: seq<Word>, ghost L0: FreeLists, ghost out: set<int>,
                  ghost block: nat, m: nat) returns (r: nat)
      requires FIRST_BLOCK <= brk <= mem.Length <= MAX_WORDS && |h| == mem.Length
      requires h[HEAP_PTR] == 45 && h[11] == 45
      requires Merging(h, h1, mem[..], B, brk, block)
      requires out == MergeParts(B, block) && Wired(mem[..], Frees(B), Classes(B), L, out)
      requires End(B, block) != brk && m == MergeStart(B, block) && L == Unlisted(B, L0, block)
      modifies this`B, this`L, mem
      ensures Valid()
      ensures Merged(old(B), L0, B, L, brk, block) && r == FreedAt(old(B), brk, block)
      ensures KeepsLive(h, mem[..], old(B))
    {
      ghost var B0, h2 := B, mem[..];
      RelistReady(h, h1, h2, B, brk, block, L);
      B := Freed(B, brk, block);
      r := PlaceFreeBlock(m, Frees(B), Classes(B), {m});
      RelistDone(h, h1, h2, mem[..], B0, brk, block);
      assert {m as int} - {m} == {};
    }

    /** The first block of list i that fits, or 0 for NULL when none does. */
    method FindInList(block: nat, size: nat, ghost i: nat) returns (r: nat)
      requires Valid() && 2 <= i <= LAST_SLOT && block == At(L[i], 0, EPILOGUE)
      ensures r == 0 ==> forall b | Fits(B, b, size) :: Slot(B[b].words) != i
      ensures r != 0 ==> Fits(B, r - 1, size) && Slot(B[r - 1].words) == i && FirstFit(B, L[i], size, r - 1)
    {
      ghost var k := 0;
      FindReads(i, k);
      var ptr := block;
      var bsize := BlockSize(mem[block]);
      while bsize > 0
        invariant 0 <= k <= |L[i]| && ptr == At(L[i], k, EPILOGUE)
        invariant ptr < mem.Length && bsize == BlockSize(mem[ptr])
        invariant forall j {:trigger L[i][j]} | 0 <= j < k :: L[i][j] in B && 4 * B[L[i][j]].words < size
        decreases |L[i]| - k
      {
        FindReads(i, k);
        if size <= bsize && BlockFree(mem[ptr]) == 0 {
          assert FitsAt(B, L[i], size, k);
          assert FirstFit(B, L[i], size, ptr);
          return ptr + 1;
        }
        ptr := mem[ptr + 1];
        k := k + 1;
        FindReads(i, k);
        bsize := BlockSize(mem[ptr]);
      }
      FindReads(i, k);
      forall b | Fits(B, b, size) ensures Slot(B[b].words) != i {
        FreeIsListed(b);
      }
      r := 0;
    }

    lemma FreeIsListed(b: nat)
      requires Valid() && b in B && B[b].free
      ensures b in L[Slot(B[b].words)]
    {
      assert b in Frees(B);
      assert IsListed(Classes(B), L, b);
    }

    lemma FindReads(i: nat, k: nat)
      requires Valid() && 2 <= i <= LAST_SLOT && k <= |L[i]|
      ensures var p := At(L[i], k, EPILOGUE);
        && p < mem.Length
        && (k == |L[i]| ==> BlockSize(mem[p]) == 0)
        && (k < |L[i]| ==> (p in B && B[p].free && Slot(B[p].words) == i && p + 1 < mem.Length
                            && BlockSize(mem[p]) == 4 * B[p].words > 0
                            && BlockFree(mem[p]) == 0 && mem[p + 1] == At(L[i], k + 1, EPILOGUE)))
    {
      if k < |L[i]| {
        assert ListedIn(Frees(B), Classes(B), L[i], i, {});
        assert Chain(mem[..], SlotHead(i), L[i]) && ChainAt(mem[..], SlotHead(i), L[i], k);
        assert BlockFits(B, FIRST_BLOCK, brk, L[i][k]) && TaggedAt(mem[..], B, L[i][k]);
        TagParts(B[L[i][k]], mem[L[i][k]]);
      }
    }

    /** Segregated first fit agrees with a search of the whole heap: it fails only when no free block fits, and
        otherwise finds the first fitting block of the lowest class that has one. */
    method FindFit(size: nat) returns (r: nat)
      requires Valid()
      ensures r == 0 <==> forall b :: !Fits(B, b, size)
      ensures r != 0 ==> BestFit(B, L, r - 1, size)
      ensures r != 0 ==> HasLowestFit(B, L, r - 1, size)
    {
      var index := GetSegListIndex(size % WORD_LIMIT);
      forall b | Fits(B, b, size) ensures HEAP_PTR + index <= Slot(B[b].words) {
        LowClassTooSmall(B, brk, b, size);
      }
      for i := index to 10
        invariant forall b | Fits(B, b, size) :: HEAP_PTR + i <= Slot(B[b].words)
      {
        var ptr := HEAP_PTR + i;
        assert Chain(mem[..], SlotHead(ptr), L[ptr]);
        var fit := FindInList(mem[ptr], size, ptr);
        if fit != 0 {
          BestInBytes(fit - 1, size, i);
          return fit;
        }
      }
      r := 0;
    }

    lemma BestInBytes(a: nat, size: nat, i: nat)
      requires Valid() && BestFit(B, L, a, size) && HEAP_PTR + i == Slot(B[a].words)
      ensures LowestFit(B, L, a, size, i)
    {
      forall b | b in B ensures B[b].words >= 0 {
        assert BlockFits(B, FIRST_BLOCK, brk, b);
      }
      BestIsLowest(B, L, a, size, i);
    }

    // Blocks have an even number of words, so the break stays odd.
    lemma HeapTopOdd()
      requires Valid()
      ensures brk % 2 == 1
    {
      TopOdd(B, FIRST_BLOCK, brk);
    }

    /** Add at least `words` words to the heap as one free block, or return 0 for NULL and change nothing. */
    method ExtendHeap(words: nat, ghost w: nat) returns (r: nat)
      requires Valid() && words >= 4 && w == words + words % 2
      modifies this, mem
      ensures Valid()
      ensures if w <= mem.Length - old(brk) then
          && r == old(brk) && brk == r + w && Grown(old(B), old(L), B, L, r, w)
          && KeepsLive(old(mem[..]), mem[..], old(B))
        else
          r == 0 && brk == old(brk) && mem[..] == old(mem[..]) && B == old(B) && L == old(L)
    {
      var size := if words % 2 != 0 then (words + 1) * 4 else words * 4;
      ghost var h := mem[..];
      assert size == 4 * w && size / 4 == w;
      HeapTopOdd();
      var block: int;
      block, brk := MemSbrk(mem.Length, brk, size);
      if block == -1 {
        return 0;
      }
      WriteFreeTags(mem, block, size, w);
      ExtendWired(h, mem[..], B, block, w, L);
      ghost var h1, B0, L0 := mem[..], B, L;
      B := B[block := Block(w, true)];
      r := Coalesce(block);
      ExtendDone(h, h1, mem[..], B0, L0, B, L, block, w);
    }

    /** Allocate `size` bytes (w words) in the free block whose payload is bp, splitting it when 16 bytes or more
        remain. */
    method Place(bp: nat, size: nat, ghost w: nat)
      requires Valid() && bp >= 1 && bp - 1 in B && B[bp - 1].free && w <= B[bp - 1].words
      requires size == 4 * w && w >= 4 && w % 2 == 0
      modifies this`B, this`L, mem
      ensures Valid()
      ensures Placed(old(B), old(L), B, L, bp - 1, w)
      ensures KeepsLive(old(mem[..]), mem[..], old(B))
    {
      var block := bp - 1;
      NeighbourTags(mem[..], B, FIRST_BLOCK, brk, block);
      var bsize := BlockSize(mem[block]);
      if bsize - size >= 16 {
        PlaceInPart(block, size, bsize, w);
      } else {
        PlaceInWhole(block, bsize);
      }
    }

    // The branch of place that uses up the block.
    method PlaceInWhole(block: nat, bsize: nat)
      requires Valid() && block in B && B[block].free && bsize == 4 * B[block].words
      modifies this`B, this`L, mem
      ensures Valid()
      ensures B == Mark(old(B), block, false) && L == Drop(old(L), block)
      ensures KeepsLive(old(mem[..]), mem[..], old(B))
    {
      ghost var h := mem[..];
      ghost var i, k := WholeReads(h, B, brk, L, block);
      MarkWhole(mem, block, bsize, B);
      ghost var h1 := mem[..];
      PlaceReads(h, h1, B, brk, L, i, k, block, {block, End(B, block) - 1});
      UnlinkPlaced(block, i, k);
      PlaceWhole(h, h1, mem[..], B, brk, L, i, k, block);
      PlaceWholeDone(h, h1, mem[..], B, brk, block);
      B := Mark(B, block, false);
      L := Drop(L, block);
    }

    method UnlinkPlaced(block: nat, ghost i: nat, ghost k: nat)
      requires 2 <= i < |L| && UnlinkReads(mem[..], L[i], i, k) && L[i][k] == block
      modifies mem
      ensures Unlinked(old(mem[..]), mem[..], SlotHead(i), L[i], k)
    {
      var next := mem[block + 1];
      var prev := mem[block + 2];
      if BlockFree(mem[next]) == 0 {
        mem[next + 2] := prev;
      }
      SetNext(prev, next);
    }

    // The branch of place that leaves a smaller free block behind.
    method PlaceInPart(block: nat, size: nat, bsize: nat, ghost w: nat)
      requires Valid() && block in B && B[block].free && bsize == 4 * B[block].words
      requires size == 4 * w && w % 2 == 0 && 4 <= w && w + 4 <= B[block].words
      modifies this`B, this`L, mem
      ensures Valid()
      ensures Placed(old(B), old(L), B, L, block, w)
      ensures KeepsLive(old(mem[..]), mem[..], old(B))
    {
      ghost var h, B0 := mem[..], B;
      var index := GetSegListIndex(bsize);
      var temp := SplitOff(block, size, bsize, w);
      ghost var h1 := mem[..];
      Migrate(temp - 1, index, Classes(B0)[(block + w) as int := Slot(B0[block].words)]);
      KeepsLiveTrans(h, h1, mem[..], B0, B);
    }

    // Cut the block in two; the remainder takes its place in its list, whatever its size.
    method SplitOff(block: nat, size: nat, bsize: nat, ghost w: nat) returns (temp: nat)
      requires Valid() && block in B && B[block].free && bsize == 4 * B[block].words
      requires size == 4 * w && w % 2 == 0 && 4 <= w && w + 4 <= B[block].words
      modifies this`B, this`L, mem
      ensures temp - 1 == block + w && block + w !in old(B)
      ensures B == Split(old(B), block, w) && L == Substitute(old(L), block, block + w)
      ensures mem[HEAP_PTR] == 45 && mem[11] == 45 && Tiles(B, FIRST_BLOCK, brk) && Tagged(mem[..], B)
      ensures Wired(mem[..], Frees(B), Classes(old(B))[(block + w) as int := Slot(old(B)[block].words)], L, {})
      ensures KeepsLive(old(mem[..]), mem[..], old(B))
    {
      ghost var h := mem[..];
      ghost var i, k := CutTags(block, size, bsize, w);
      ghost var h1 := mem[..];
      temp := GetFooterEl(mem, block) + 2;
      SubstituteBlock(block, temp, i, k);
      SplitDone(h, h1, mem[..], B, brk, L, i, k, block, w);
      L := Substitute(L, block, block + w);
      B := Split(B, block, w);
    }

    method CutTags(block: nat, size: nat, bsize: nat, ghost w: nat) returns (ghost i: nat, ghost k: nat)
      requires Valid() && block in B && B[block].free && bsize == 4 * B[block].words
      requires size == 4 * w && w % 2 == 0 && 4 <= w && w + 4 <= B[block].words
      modifies mem
      ensures 2 <= i <= LAST_SLOT && k < |L[i]| && L[i][k] == block && i == Slot(B[block].words)
      ensures SplitTagged(old(mem[..]), mem[..], B, block, w) && SizeInWords(mem[block]) == w
      ensures UnlinkReads(mem[..], L[i], i, k)
      ensures k > 0 ==> ClearBy(L[i][k - 1], block, block + w)
      ensures k + 1 < |L[i]| ==> ClearBy(L[i][k + 1], block, block + w)
    {
      ghost var h := mem[..];
      i, k := WholeReads(h, B, brk, L, block);
      WriteSplitTags(mem, block, size, bsize, w, B);
      SplitReady(h, mem[..], B, brk, L, i, k, block, w);
    }

    // The link writes of a split: the remainder takes over the links of the block.
    method SubstituteBlock(block: nat, temp: nat, ghost i: nat, ghost k: nat)
      requires 2 <= i < |L| && UnlinkReads(mem[..], L[i], i, k) && L[i][k] == block
      requires block + 4 < temp && temp + 2 < mem.Length <= MAX_WORDS
      requires k > 0 ==> ClearBy(L[i][k - 1], block, temp - 1)
      requires k + 1 < |L[i]| ==> ClearBy(L[i][k + 1], block, temp - 1)
      modifies mem
      ensures Replaced(old(mem[..]), mem[..], SlotHead(i), L[i], k, temp - 1)
    {
      mem[temp] := mem[block + 1];
      mem[temp + 1] := mem[block + 2];
      var next := mem[temp];
      var prev := mem[temp + 1];
      SetNext(prev, temp - 1);
      if BlockFree(mem[next]) == 0 {
        mem[next + 2] := temp - 1;
      }
    }

    // The free block `rest`, listed by class cls, moves when its size selects another list than `index`.
    method Migrate(rest: nat, index: nat, ghost cls: map<int, nat>)
      requires FIRST_BLOCK <= brk <= mem.Length <= MAX_WORDS && mem[HEAP_PTR] == 45 && mem[11] == 45
      requires Tiles(B, FIRST_BLOCK, brk) && Tagged(mem[..], B) && rest in B && B[rest].free
      requires Wired(mem[..], Frees(B), cls, L, {}) && rest in cls && cls[rest] == HEAP_PTR + index
      requires forall a | a in Frees(B) && a != rest :: a in cls && cls[a] == Classes(B)[a]
      modifies this`L, mem
      ensures Valid()
      ensures L == if HEAP_PTR + index == Slot(B[rest].words) then old(L)
                   else PushFront(Drop(old(L), rest), Slot(B[rest].words), rest)
      ensures KeepsLive(old(mem[..]), mem[..], B)
    {
      KeepsLiveRefl(mem[..], B, FIRST_BLOCK, brk);
      NeighbourTags(mem[..], B, FIRST_BLOCK, brk, rest);
      if GetSegListIndex(BlockSize(mem[rest])) != index {
        Relocate(rest, cls);
      } else {
        Rewire(mem[..], Frees(B), Frees(B), cls, Classes(B), L, {});
        assert {} * Frees(B) == {};
      }
    }

    method Relocate(rest: nat, ghost cls: map<int, nat>)
      requires FIRST_BLOCK <= brk <= mem.Length <= MAX_WORDS && mem[HEAP_PTR] == 45 && mem[11] == 45
      requires Tiles(B, FIRST_BLOCK, brk) && Tagged(mem[..], B) && rest in B && B[rest].free
      requires Wired(mem[..], Frees(B), cls, L, {}) && rest in cls
      requires forall a | a in Frees(B) && a != rest :: a in cls && cls[a] == Classes(B)[a]
      modifies this`L, mem
      ensures Valid()
      ensures L == PushFront(Drop(old(L), rest), Slot(B[rest].words), rest)
      ensures KeepsLive(old(mem[..]), mem[..], B)
    {
      ghost var h, out := mem[..], {} + {rest as int};
      RemoveBlock(rest, Frees(B), cls, {});
      ghost var h1 := mem[..];
      RelocateReady(h, h1, B, brk, cls, L, rest);
      var _ := PlaceFreeBlock(rest, Frees(B), Classes(B), out);
      assert out - {rest} == {};
      RelocateDone(h, h1, mem[..], B, brk);
    }

    /** malloc. The request is rounded up, taken from the first fitting block of the lowest class that has one, or
        from fresh words when no block fits; it fails, changing nothing, only when those run out too. */
    method Malloc(size: nat) returns (r: nat)
      requires Valid() && size + 15 <= SIZE_MAX
      modifies this, mem
      ensures Valid()
      ensures r == 0 ==> brk == old(brk) && mem[..] == old(mem[..]) && B == old(B) && L == old(L)
      ensures r == 0 <==> size == 0 || NoRoom(CHUNKSIZE, mem.Length, old(B), old(brk), size)
      ensures size > 0 ==> (r == 0 <==> OutOfMemory(256, 4 * (mem.Length - old(brk)), old(B), size))
      ensures r != 0 ==> GrewBy(256, 4 * (brk - old(brk)), old(B), size)
      ensures r != 0 ==> Served(old(B), B, brk, r, size) && KeepsLive(old(mem[..]), mem[..], old(B))
      ensures r != 0 ==> Allocated(old(B), old(L), old(brk), B, L, brk, r, size)
    {
      if size == 0 {
        return 0;
      }
      RequestFits(size);
      InBytes(CHUNKSIZE, mem.Length, B, brk, size);
      var asize := GetMallocSize(size);
      ghost var w := RequestWords(size);
      var bp := FindFit(asize);
      if bp != 0 {
        PlaceServes(B, FIRST_BLOCK, brk, bp - 1, size);
        Place(bp, asize, w);
        return bp;
      }
      GrowFacts(CHUNKSIZE, size);
      FreshServes(B, FIRST_BLOCK, brk, GrowWords(CHUNKSIZE, size), size);
      ghost var B0, top := B, brk;
      r := MallocFresh(size, asize, w);
      if r != 0 {
        FreshServed(B0, B, top, GrowWords(CHUNKSIZE, size), size, brk, r);
      }
    }

    // The part of malloc that extends the heap.
    method MallocFresh(size: nat, asize: nat, ghost w: nat) returns (r: nat)
      requires Valid() && 0 < size && size + 15 <= SIZE_MAX && asize == GetMallocSize(size) && w == RequestWords(size)
      modifies this, mem
      ensures Valid()
      ensures r == 0 <==> GrowWords(CHUNKSIZE, size) > mem.Length - old(brk)
      ensures r == 0 ==> brk == old(brk) && mem[..] == old(mem[..]) && B == old(B) && L == old(L)
      ensures r != 0 ==> KeepsLive(old(mem[..]), mem[..], old(B))
      ensures r != 0 ==>
        && r == old(brk) + 1 && brk == old(brk) + GrowWords(CHUNKSIZE, size)
        && GrownAndPlaced(old(B), old(L), B, L, old(brk), GrowWords(CHUNKSIZE, size), w)
    {
      var esize := if asize > CHUNKSIZE then asize else CHUNKSIZE;
      ghost var h, B0, L0, top, g := mem[..], B, L, brk, GrowWords(CHUNKSIZE, size);
      GrowFacts(CHUNKSIZE, size);
      var words := esize / 4;
      assert words == g;
      r := ExtendHeap(words, g);
      if r != 0 {
        ghost var h1, B1, L1 := mem[..], B, L;
        Place(r + 1, asize, w);
        PlacedInFresh(B0, L0, B1, L1, B, L, top, g, w);
        KeepsLiveTrans(h, h1, mem[..], B0, B1);
        r := r + 1;
      }
    }

    /** free. The block joins its free neighbours, unless it ends at the heap top, and heads its list. */
    method Free(ptr: nat)
      requires Valid() && (ptr == 0 || ptr - 1 in Live(B))
      modifies this`B, this`L, mem
      ensures Valid()
      ensures ptr == 0 ==> mem[..] == old(mem[..]) && B == old(B) && L == old(L)
      ensures ptr != 0 ==>
        && KeepsLive(old(mem[..]), mem[..], Mark(old(B), ptr - 1, true))
        && Released(old(B), old(L), B, L, brk, ptr - 1)
    {
      if ptr == 0 {
        return;
      }
      ghost var h, B0, block := mem[..], B, ptr - 1;
      assert BlockFits(B, FIRST_BLOCK, brk, block) && TaggedAt(h, B, block);
      BlockMarkFree(mem, ptr - 1, B);
      ghost var h1 := mem[..];
      FreeWired(h, h1, B, brk, block, L);
      ghost var B1 := Mark(B, block, true);
      B := B1;
      var _ := Coalesce(ptr - 1);
      KeepsLiveTrans(h, h1, mem[..], B1, B1);
      LiveMark(B0, block);
      LiveCoalesce(B1, FIRST_BLOCK, brk, block);
    }

    /** realloc, where it does not move the block: NULL and zero sizes, the same rounded size, and shrinking by at
        least 16 bytes, which frees the tail. */
    method ReallocInPlace(oldptr: nat, size: nat) returns (r: nat)
      requires Valid() && size + 15 <= SIZE_MAX && (oldptr == 0 || oldptr - 1 in Live(B))
      requires oldptr != 0 && size != 0 ==>
        GetMallocSize(size) == 4 * B[oldptr - 1].words || GetMallocSize(size) + 16 <= 4 * B[oldptr - 1].words
      modifies this, mem
      ensures Valid()
      ensures size == 0 ==> r == 0 && brk == old(brk)
      ensures size == 0 && oldptr != 0 ==>
        && KeepsLive(old(mem[..]), mem[..], Mark(old(B), oldptr - 1, true))
        && Released(old(B), old(L), B, L, brk, oldptr - 1)
      ensures oldptr == 0 && r == 0 ==> brk == old(brk) && mem[..] == old(mem[..]) && B == old(B) && L == old(L)
      ensures size != 0 && oldptr == 0 ==> (r == 0 <==> NoRoom(CHUNKSIZE, mem.Length, old(B), old(brk), size))
      ensures size != 0 && oldptr == 0 && r != 0 ==>
        && Served(old(B), B, brk, r, size) && KeepsLive(old(mem[..]), mem[..], old(B))
        && Allocated(old(B), old(L), old(brk), B, L, brk, r, size)
      ensures size != 0 && oldptr != 0 ==>
        && r == oldptr && brk == old(brk) && 4 * (RequestWords(size) - 2) >= size
        && Trimmed(old(B), old(L), B, L, brk, oldptr - 1, RequestWords(size))
        && KeepsRange(old(mem[..]), mem[..], oldptr, oldptr + RequestWords(size) - 2)
        && KeepsOthers(old(mem[..]), mem[..], old(B), oldptr - 1)
    {
      if size == 0 {
        Free(oldptr);
        return 0;
      }
      if oldptr == 0 {
        r := Malloc(size);
        return;
      }
      RequestFits(size);
      NeighbourTags(mem[..], B, FIRST_BLOCK, brk, oldptr - 1);
      var oldsize := BlockSize(mem[oldptr - 1]);
      var newsize := GetMallocSize(size);
      if newsize == oldsize {
        KeepsLiveRefl(mem[..], B, FIRST_BLOCK, brk);
        TrimmedNothing(B, L, brk, oldptr - 1);
        r := oldptr;
      } else if ShrinkTest(oldsize, newsize) {
        Shrink(oldptr - 1, newsize, oldsize, RequestWords(size));
        r := oldptr;
      } else {
        ShrinkTestExact(oldsize, newsize);
        assert false;
      }
    }

    // The branch of realloc that frees the tail of the block.
    method Shrink(oldheader: nat, newsize: nat, oldsize: nat, ghost w: nat)
      requires Valid() && oldheader in B && !B[oldheader].free && oldsize == 4 * B[oldheader].words
      requires newsize == 4 * w && w >= 4 && w % 2 == 0 && w + 4 <= B[oldheader].words
      modifies this`B, this`L, mem
      ensures Valid()
      ensures Shrunk(old(B), old(L), B, L, brk, oldheader, w)
      ensures KeepsRange(old(mem[..]), mem[..], oldheader + 1, oldheader + w - 1)
      ensures KeepsOthers(old(mem[..]), mem[..], old(B), oldheader)
    {
      ghost var h, B0, L0 := mem[..], B, L;
      CutTail(oldheader, newsize, oldsize, w);
      ghost var h1 := mem[..];
      var newheader := GetFooterEl(mem, oldheader) + 1;
      var _ := Coalesce(newheader);
      ShrinkDone(h, h1, mem[..], B0, L0, B, L, brk, oldheader, w);
    }

    method CutTail(oldheader: nat, newsize: nat, oldsize: nat, ghost w: nat)
      requires Valid() && oldheader in B && !B[oldheader].free && oldsize == 4 * B[oldheader].words
      requires newsize == 4 * w && w >= 4 && w % 2 == 0 && w + 4 <= B[oldheader].words
      modifies this`B, mem
      ensures Consistent({oldheader + w}) && oldheader + w !in old(B) && B == Split(old(B), oldheader, w)
      ensures oldheader + w in B && B[oldheader + w].free && B[oldheader + w].words > 0
      ensures oldheader < mem.Length && SizeInWords(mem[oldheader]) == w
      ensures KeepsRange(old(mem[..]), mem[..], oldheader + 1, oldheader + w - 1)
      ensures KeepsOthers(old(mem[..]), mem[..], old(B), oldheader)
    {
      ghost var h := mem[..];
      assert BlockFits(B, FIRST_BLOCK, brk, oldheader);
      WriteSplitTags(mem, oldheader, newsize, oldsize, w, B);
      ShrinkWired(h, mem[..], B, brk, oldheader, w, L);
      B := Split(B, oldheader, w);
    }

    /** What a caller may do with what it owns: writing its payload disturbs neither the heap nor anyone else. */
    method Store(ptr: nat, k: nat, v: Word)
      requires Valid() && ptr >= 1 && ptr - 1 in Live(B) && k < Live(B)[ptr - 1]
      modifies mem
      ensures Valid()
      ensures ptr + k < mem.Length && mem[..] == old(mem[..])[ptr + k := v]
      ensures KeepsOthers(old(mem[..]), mem[..], B, ptr - 1)
    {
      ghost var h, a := mem[..], ptr - 1;
      assert BlockFits(B, FIRST_BLOCK, brk, a) && TaggedAt(h, B, a);
      mem[ptr + k] := v;
      LiveBlockWrites(h, mem[..], B, brk, a, L, {ptr + k});
      CutTagged(h, mem[..], B, B, FIRST_BLOCK, brk, a);
    }

    /**
     * What the nine lists are in a valid heap, in terms of the words. A free block occurs in exactly one list, the one
     * its size selects, and there exactly once; the block its next link names has it as prev, and whatever its prev
     * link names, a block or a list head, has it as next.
     */
    lemma FreeBlockListedOnce(b: nat) returns (i: nat, k: nat)
      requires Valid() && b in B && B[b].free
      ensures i == Slot(B[b].words) && k < |L[i]| && L[i][k] == b && InClass(i - 1, 4 * B[b].words)
      ensures forall j, m {:trigger L[j][m]} | 2 <= j <= LAST_SLOT && 0 <= m < |L[j]| && L[j][m] == b ::
        j == i && m == k
      ensures b + 2 < mem.Length && mem[b + 1] < mem.Length
      ensures mem[b + 1] == At(L[i], k + 1, EPILOGUE)
      ensures mem[b + 1] != EPILOGUE ==> mem[b + 1] + 2 < mem.Length && mem[mem[b + 1] + 2] == b
      ensures mem[b + 2] == Before(L[i], k, i) && NextWord(mem[b + 2]) < mem.Length && mem[NextWord(mem[b + 2])] == b
    {
      i, k := RemoveReads(mem[..], Frees(B), Classes(B), L, {}, b);
      assert BlockFits(B, FIRST_BLOCK, brk, b);
      ClassBySize(4 * B[b].words, i - 1);
      forall j, m | 2 <= j <= LAST_SLOT && 0 <= m < |L[j]| && L[j][m] == b ensures j == i && m == k {
        assert ListedIn(Frees(B), Classes(B), L[j], j, {});
      }
      assert Chain(mem[..], SlotHead(i), L[i]) && ListedIn(Frees(B), Classes(B), L[i], i, {});
      LinksAround(mem[..], Frees(B), L[i], i, k);
    }

    static lemma LinksAround(h: seq<Word>, F: set<int>, s: seq<nat>, i: nat, k: nat)
      requires Chain(h, SlotHead(i), s) && Lists(s, F) && Sparse(F, FIRST_BLOCK) && 2 <= i <= LAST_SLOT && k < |s|
      ensures s[k] + 2 < |h| && h[s[k] + 1] < |h|
      ensures h[s[k] + 1] == At(s, k + 1, EPILOGUE)
      ensures h[s[k] + 1] != EPILOGUE ==> h[s[k] + 1] + 2 < |h| && h[h[s[k] + 1] + 2] == s[k]
      ensures h[s[k] + 2] == Before(s, k, i) && NextWord(h[s[k] + 2]) < |h| && h[NextWord(h[s[k] + 2])] == s[k]
    {
      assert ChainAt(h, SlotHead(i), s, k);
      assert k > 0 ==> ChainAt(h, SlotHead(i), s, k - 1);
      assert k + 1 < |s| ==> ChainAt(h, SlotHead(i), s, k + 1);
    }

    /** And nothing but free blocks is listed. */
    lemma ListedIsFree(i: nat, k: nat)
      requires Valid() && 2 <= i <= LAST_SLOT && k < |L[i]|
      ensures L[i][k] in B && B[L[i][k]].free && Slot(B[L[i][k]].words) == i
      ensures InClass(i - 1, 4 * B[L[i][k]].words)
    {
      assert ListedIn(Frees(B), Classes(B), L[i], i, {});
      assert BlockFits(B, FIRST_BLOCK, brk, L[i][k]);
      ClassBySize(4 * B[L[i][k]].words, i - 1);
    }

    /** Header and footer of a block hold its size in bytes, plus one when it is allocated. */
    lemma HeaderWords(b: nat)
      requires Valid() && b in B
      ensures b + B[b].words <= mem.Length && B[b].words >= 4
      ensures mem[b] == mem[b + B[b].words - 1] == 4 * B[b].words + if B[b].free then 0 else 1
    {
      assert BlockFits(B, FIRST_BLOCK, brk, b) && TaggedAt(mem[..], B, b);
    }

    /** Conservation: the blocks met on a walk from the first are all the blocks there are, each once, and together they
        have all the bytes of the heap but 52. */
    lemma BytesConserved()
      requires Valid()
      ensures FIRST_BLOCK in B || brk == FIRST_BLOCK
      ensures var s := Walk(B, FIRST_BLOCK, brk, FIRST_BLOCK);
        Ascending(s) && (forall x {:trigger x in s} :: x in s <==> x in B) && 4 * SumWords(B, s) == 4 * brk - 52
    {
      WalkVisits(B, FIRST_BLOCK, brk, FIRST_BLOCK);
      forall x | x in B ensures x >= FIRST_BLOCK {
        assert BlockFits(B, FIRST_BLOCK, brk, x);
      }
    }

    // The region mem_sbrk serves, before mm_init.
    constructor (capacity: nat)
      requires capacity <= MAX_WORDS
      ensures fresh(mem) && mem.Length == capacity && brk == 0
    {
      mem := new Word[capacity];
      brk := 0;
      B := map[];
      L := seq(LAST_SLOT + 1, i => []);
    }

    /** mm_init: nine empty lists, then one chunk of free heap; -1 when the region is too small. */
    method MmInit() returns (r: int)
      requires brk == 0 && mem.Length <= MAX_WORDS
      modifies this, mem
      ensures r == 0 || r == -1
      ensures r == 0 <==> mem.Length >= 77
      ensures r == 0 ==> Valid() && brk == 77 && B == map[13 := Block(64, true)]
    {
      var p: int;
      p, brk := MemSbrk(mem.Length, brk, 13 * 4);
      if p == -1 {
        return -1;
      }
      WritePrologue();
      B := map[];
      L := seq(LAST_SLOT + 1, i => []);
      EmptyWired(mem[..], L);
      var block := ExtendHeap(CHUNKSIZE / 4, CHUNKSIZE / 4);
      r := if block == 0 then -1 else 0;
    }

    method WritePrologue()
      requires FIRST_BLOCK <= mem.Length
      modifies mem
      ensures mem[0] == 0 && mem[HEAP_PTR] == 45 && mem[11] == 45 && mem[EPILOGUE] == 1
      ensures forall i | 2 <= i <= LAST_SLOT :: mem[i] == EPILOGUE
    {
      mem[0] := 0;
      mem[1] := 44 + 1;
      mem[2], mem[3], mem[4] := 12, 12, 12;
      mem[5], mem[6], mem[7] := 12, 12, 12;
      mem[8], mem[9], mem[10] := 12, 12, 12;
      mem[11] := 44 + 1;
      mem[12] := 0 + 1;
    }
  }

  lemma SmallRequests()
    ensures RequestWords(8) == 4 && RequestWords(232) == 60 && GetMallocSize(8) == 16 && GetMallocSize(232) == 240
  {
  }

  // malloc in a heap with one free block, which is large enough.
  method TakeOnly(a: Allocator, at: nat, size: nat) returns (r: nat)
    requires a.Valid() && 0 < size && size + 15 <= SIZE_MAX && at in a.B && RequestWords(size) <= a.B[at].words
    requires forall b {:trigger b in a.B} | b in a.B :: a.B[b].free <==> b == at
    modifies a, a.mem
    ensures a.Valid() && r == at + 1 && a.brk == old(a.brk) && a.B == Place(old(a.B), at, RequestWords(size))
  {
    RequestFits(size);
    assert Fits(a.B, at, GetMallocSize(size));
    r := a.Malloc(size);
  }

  method GiveBack(a: Allocator, ptr: nat)
    requires a.Valid() && ptr >= 1 && ptr - 1 in Live(a.B)
    modifies a, a.mem
    ensures a.Valid() && a.brk == old(a.brk)
    ensures ptr - 1 in old(a.B) && old(a.B)[ptr - 1].words > 0
    ensures a.B == Freed(Mark(old(a.B), ptr - 1, true), a.brk, ptr - 1)
  {
    assert BlockFits(a.B, FIRST_BLOCK, a.brk, ptr - 1);
    a.Free(ptr);
  }

  const BOTH_LIVE: Layout := map[13 := Block(4, false), 17 := Block(60, false)]
  const BOTH_FREE: Layout := map[13 := Block(4, true), 17 := Block(60, true)]

  lemma BothTaken()
    ensures var B: Layout := Place(map[13 := Block(64, true)], 13, 4);
      B == map[13 := Block(4, false), 17 := Block(60, true)] && Place(B, 17, 60) == BOTH_LIVE
  {
    var B: Layout := map[13 := Block(64, true)];
    assert Splits(B, 13, 4);
  }

  // The first is freed between two live neighbours, the second at the heap top.
  lemma BothGivenBack()
    ensures var B := Mark(BOTH_LIVE, 13, true);
      B[13].words > 0 && Freed(B, 77, 13) == B && Freed(Mark(B, 17, true), 77, 17) == BOTH_FREE
  {
    var B := Mark(BOTH_LIVE, 13, true);
    assert !HasLeft(B, 13) && !RightFree(B, 13);
  }

  method TakesBoth(capacity: nat) returns (a: Allocator, p: nat, q: nat)
    requires FIRST_BLOCK + CHUNKSIZE / 4 <= capacity <= MAX_WORDS
    ensures fresh(a) && fresh(a.mem) && a.Valid() && a.B == BOTH_LIVE && a.brk == 77 && p == 14 && q == 18
  {
    a := new Allocator(capacity);
    var _ := a.MmInit();
    SmallRequests();
    BothTaken();
    p := TakeOnly(a, 13, 8);
    q := TakeOnly(a, 17, 232);
  }

  /**
   * A heap whose two neighbouring blocks are both free: the second one filled the heap up to its top when it was freed,
   * so it was not merged with the first.
   */
  method LeavesNeighboursFree(capacity: nat) returns (a: Allocator)
    requires FIRST_BLOCK + CHUNKSIZE / 4 <= capacity <= MAX_WORDS
    ensures a.Valid() && a.B == BOTH_FREE && RightFree(BOTH_FREE, 13)
  {
    var p, q;
    a, p, q := TakesBoth(capacity);
    BothGivenBack();
    GiveBack(a, p);
    GiveBack(a, q);
  }
}
