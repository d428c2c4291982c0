/** The explicit-list allocator of mm-explicit.c: boundary tags and one free list in one array of words.
    Addresses are word indices; word 0 is 8-byte aligned. */
module Explicit {
  import opened Words
  import opened Blocks
  import opened Links
  import opened Sequences
  import opened Tags
  import opened SingleList
  import opened Requests
  import opened Heap

  const CHUNKSIZE: nat := 4096

  class Allocator {
    // The region mem_sbrk hands out, and how much of it is in use.
    const mem: array<Word>
    var brk: nat
    // What the words mean: the blocks of the heap and the order of the free list.
    ghost var B: Layout
    ghost var s: seq<nat>

    /** The heap is consistent, but for the free blocks in `out`, which are not in the list. */
    ghost predicate Consistent(out: set<int>)
      reads this, mem
    {
      && FIRST_BLOCK <= brk <= mem.Length <= MAX_WORDS
      && mem[HEAP_PTR] == 17 && mem[3] == 17
      && Tiles(B, FIRST_BLOCK, brk)
      && Tagged(mem[..], B)
      && Wired(mem[..], Frees(B), s, out)
    }

    ghost predicate Valid()
      reads this, mem
    {
      Consistent({})
    }

    /** Unlink the block from the list. */
    method RemoveBlock(block: nat, ghost F: set<int>, ghost out: set<int>)
      requires Wired(mem[..], F, s, out) && block in F && block !in out
      modifies mem, `s
      ensures s == Without(old(s), block)
      ensures Wired(mem[..], F, s, out + {block})
      ensures Frame(old(mem[..]), mem[..], LINK, F, {})
    {
      ghost var h := mem[..];
      ghost var k := RemoveReads(h, F, s, out, block);
      var p := mem[block + 2];
      var n := mem[block + 1];
      mem[p + 1] := mem[block + 1];
      if BlockFree(mem[n]) == 0 {
        mem[n + 2] := mem[block + 2];
      }
      assert Unlinked(h, mem[..], HEAD, s, k);
      RemoveShape(h, mem[..], F, s, out, k);
      ParityFrame(h, mem[..], F, F);
      s := Without(s, block);
    }

    /** Put the unlisted free block at the front of the list. */
    method PlaceFreeBlock(block: nat, ghost F: set<int>, ghost out: set<int>) returns (r: nat)
      requires Wired(mem[..], F, s, out) && block in F && block in out && mem.Length <= MAX_WORDS
      modifies mem, `s
      ensures r == block && s == [block] + old(s)
      ensures Wired(mem[..], F, s, out - {block})
      ensures Frame(old(mem[..]), mem[..], LINK, F, {})
    {
      ghost var h := mem[..];
      PushReads(h, F, s, out, block);
      mem[block + 1] := mem[HEAP_PTR + 1];
      mem[block + 2] := HEAP_PTR;
      mem[HEAP_PTR + 1] := block;
      if BlockFree(mem[mem[block + 1]]) == 0 {
        mem[mem[block + 1] + 2] := block;
      }
      PushWired(h, mem[..], F, s, out, block);
      s := [block] + s;
      r := block;
    }

    /** Merge the free block, which is not in the list yet, with its free neighbours and list the result. */
    method Coalesce(block: nat) returns (r: nat)
      requires Consistent({block}) && block in B && B[block].free && B[block].words > 0
      modifies this`B, this`s, mem
      ensures Valid()
      ensures Merged(old(B), old(s), B, s, brk, block) && r == FreedAt(old(B), brk, block)
      ensures KeepsLive(old(mem[..]), mem[..], old(B))
    {
      NeighbourTags(mem[..], B, FIRST_BLOCK, brk, block);
      if GetFooterEl(mem, block) + 1 >= brk {
        r := ListAlone(block);
        return;
      }
      var prevAlloc := BlockFree(mem[block - 1]);
      var nextAlloc := BlockFree(mem[GetFooterEl(mem, block) + 1]);
      var size := BlockSize(mem[block]);
      if prevAlloc != 0 && nextAlloc != 0 {
        r := ListAlone(block);
      } else if prevAlloc != 0 {
        r := CoalesceNext(block, size);
      } else if nextAlloc != 0 {
        r := CoalescePrev(block, size);
      } else {
        r := CoalesceBoth(block, size);
      }
    }

    // The branches of coalesce that merge nothing.
    method ListAlone(block: nat) returns (r: nat)
      requires Consistent({block}) && block in B && B[block].free
      modifies this`s, mem
      ensures Valid() && r == block && s == [block] + old(s)
      ensures KeepsLive(old(mem[..]), mem[..], B)
    {
      ghost var h := mem[..];
      r := PlaceFreeBlock(block, Frees(B), {block});
      FrameTagged(h, mem[..], B, FIRST_BLOCK, brk, LINK, Frees(B));
      FrameLive(h, mem[..], B, FIRST_BLOCK, brk, LINK, Frees(B), {});
      assert {block as int} - {block} == {};
    }

    method CoalesceNext(block: nat, size: nat) returns (r: nat)
      requires Consistent({block}) && block in B && B[block].free && B[block].words > 0
      requires End(B, block) < brk && !LeftFree(B, block) && RightFree(B, block) && size == 4 * B[block].words
      modifies this`B, this`s, mem
      ensures Valid()
      ensures Merged(old(B), old(s), B, s, brk, block) && r == FreedAt(old(B), brk, block)
      ensures KeepsLive(old(mem[..]), mem[..], old(B))
    {
      ghost var h, s0 := mem[..], s;
      MergeReads(h, B, FIRST_BLOCK, brk, block);
      var next := GetFooterEl(mem, block) + 1;
      var total := size + BlockSize(mem[next]);
      mem[block] := total;
      mem[GetFooterEl(mem, next)] := total;
      ghost var h1 := mem[..];
      MergeTagsWired(h, h1, B, brk, block, s, {block});
      RemoveBlock(next, Frees(B), {block});
      PartsAre(B, block);
      r := Relist(h, h1, s0, {block} + {next}, block, block);
    }

    // The left neighbour grows where it is and keeps its place in the list.
    method CoalescePrev(block: nat, size: nat) returns (r: nat)
      requires Consistent({block}) && block in B && B[block].free && B[block].words > 0
      requires End(B, block) < brk && LeftFree(B, block) && !RightFree(B, block) && size == 4 * B[block].words
      modifies this`B, mem
      ensures Valid()
      ensures Merged(old(B), old(s), B, s, brk, block) && r == FreedAt(old(B), brk, block)
      ensures KeepsLive(old(mem[..]), mem[..], old(B))
    {
      ghost var h := mem[..];
      MergeReads(h, B, FIRST_BLOCK, brk, block);
      var prev := block - SizeInWords(mem[block - 1]);
      var total := size + BlockSize(mem[prev]);
      mem[prev] := total;
      mem[GetFooterEl(mem, block)] := total;
      LeftMergeDone(h, mem[..], B, brk, block, s);
      B := Freed(B, brk, block);
      r := prev;
    }

    method CoalesceBoth(block: nat, size: nat) returns (r: nat)
      requires Consistent({block}) && block in B && B[block].free && B[block].words > 0
      requires End(B, block) < brk && LeftFree(B, block) && RightFree(B, block) && size == 4 * B[block].words
      modifies this`B, this`s, mem
      ensures Valid()
      ensures Merged(old(B), old(s), B, s, brk, block) && r == FreedAt(old(B), brk, block)
      ensures KeepsLive(old(mem[..]), mem[..], old(B))
    {
      ghost var h, s0 := mem[..], s;
      var prev, next := WriteBothTags(block, size);
      ghost var h1 := mem[..];
      RemoveBlock(prev, Frees(B), {block});
      ghost var h2 := mem[..];
      RemoveBlock(next, Frees(B), {block} + {prev});
      PartsAre(B, block);
      FrameTrans(h1, h2, mem[..], LINK, Frees(B), Frees(B), {});
      r := Relist(h, h1, s0, {block} + {prev} + {next}, block, prev);
    }

    method WriteBothTags(block: nat, size: nat) returns (prev: nat, next: nat)
      requires Consistent({block}) && block in B && B[block].free && B[block].words > 0
      requires End(B, block) < brk && LeftFree(B, block) && RightFree(B, block) && size == 4 * B[block].words
      modifies mem
      ensures prev == Left(B, block) && next == End(B, block) && prev < block < next
      ensures prev in Frees(B) && next in Frees(B)
      ensures MergeTagged(old(mem[..]), mem[..], B, block)
      ensures Wired(mem[..], Frees(B), s, {block})
    {
      ghost var h := mem[..];
      MergeReads(h, B, FIRST_BLOCK, brk, block);
      next := GetFooterEl(mem, block) + 1;
      prev := block - SizeInWords(mem[block - 1]);
      var total := size + (BlockSize(mem[prev]) + BlockSize(mem[next]));
      mem[prev] := total;
      mem[GetFooterEl(mem, next)] := total;
      MergeTagsWired(h, mem[..], B, brk, block, s, {block});
    }

    /** All parts of the merge around `block` are off the list and its tags are written: list the result. */
    method Relist(ghost h: seq<Word>, ghost h1: seq<Word>, ghost s0: seq<nat>, ghost out: set<int>,
                  ghost block: nat, m: nat) returns (r: nat)
      requires FIRST_BLOCK <= brk <= mem.Length <= MAX_WORDS && |h| == mem.Length
      requires h[HEAP_PTR] == 17 && h[3] == 17
      requires Merging(h, h1, mem[..], B, brk, block)
      requires out == MergeParts(B, block) && Wired(mem[..], Frees(B), s, out)
      requires End(B, block) != brk && m == MergeStart(B, block) && s == Unlisted(B, s0, block)
      requires RightFree(B, block)
      modifies this`B, this`s, mem
      ensures Valid()
      ensures Merged(old(B), s0, B, s, brk, block) && r == FreedAt(old(B), brk, block)
      ensures KeepsLive(h, mem[..], old(B))
    {
      ghost var B0, h2 := B, mem[..];
      RelistReady(h, h1, h2, B, brk, block, s);
      B := Freed(B, brk, block);
      r := PlaceFreeBlock(m, Frees(B), {m});
      RelistDone(h, h1, h2, mem[..], B0, brk, block);
      assert {m as int} - {m} == {};
    }

    lemma ListReads(k: nat)
      requires Valid() && k <= |s|
      ensures var p := At(s, k, EPILOGUE);
        && p < mem.Length
        && p >= EPILOGUE
        && (k == |s| ==> BlockSize(mem[p]) == 0)
        && (k < |s| ==> (p in B && B[p].free && p + 1 < mem.Length && BlockSize(mem[p]) == 4 * B[p].words > 0
                         && BlockFree(mem[p]) == 0 && mem[p + 1] == At(s, k + 1, EPILOGUE)))
      ensures mem[LINK] == At(s, 0, EPILOGUE)
    {
      if k < |s| {
        assert ChainAt(mem[..], HEAD, s, k);
        assert s[k] in Frees(B);
        assert BlockFits(B, FIRST_BLOCK, brk, s[k]) && TaggedAt(mem[..], B, s[k]);
        TagParts(B[s[k]], mem[s[k]]);
      }
    }

    /** The first block of the list that fits, or 0 for NULL exactly when no free block of the heap does. */
    method FindFirstFit(size: nat) returns (r: nat)
      requires Valid()
      ensures r == 0 <==> forall b :: !Fits(B, b, size)
      ensures r != 0 ==> Fits(B, r - 1, size) && SingleList.FirstFit(B, s, size, r - 1)
    {
      ListReads(0);
      var ptr: nat := HEAP_PTR;
      var bsize := BlockSize(mem[ptr]);
      ghost var k := 0;
      // The prologue is the first block looked at. It is allocated, so the walk goes on to the list.
      while bsize > 0
        invariant 0 <= k <= |s| && (ptr == At(s, k, EPILOGUE) || (ptr == HEAP_PTR && k == 0))
        invariant ptr < mem.Length && bsize == BlockSize(mem[ptr])
        invariant forall j {:trigger s[j]} | 0 <= j < k :: !Fits(B, s[j], size)
        decreases |s| - k, if ptr == HEAP_PTR then 1 else 0
      {
        ListReads(k);
        if size <= bsize && BlockFree(mem[ptr]) == 0 {
          assert FitsFirst(B, s, size, k);
          return ptr + 1;
        }
        k := if ptr == HEAP_PTR then k else k + 1;
        ptr := mem[ptr + 1];
        ListReads(k);
        bsize := BlockSize(mem[ptr]);
      }
      ListReads(k);
      forall b: nat ensures !Fits(B, b, size) {
        if b in B && B[b].free {
          assert b in Frees(B);
          assert IsListed(s, b);
        }
      }
      r := 0;
    }

    /** Add at least `words` words to the heap as one free block, or return 0 for NULL and change nothing. */
    method ExtendHeap(words: nat, ghost w: nat) returns (r: nat)
      requires Valid() && words >= 4 && w == words + words % 2
      modifies this, mem
      ensures Valid()
      ensures if w <= mem.Length - old(brk) then
          && r == old(brk) && brk == r + w && Grown(old(B), old(s), B, s, r, w)
          && KeepsLive(old(mem[..]), mem[..], old(B))
        else
          r == 0 && brk == old(brk) && mem[..] == old(mem[..]) && B == old(B) && s == old(s)
    {
      var size := if words % 2 != 0 then (words + 1) * 4 else words * 4;
      ghost var h := mem[..];
      assert size == 4 * w && size / 4 == w;
      TopOdd(B, FIRST_BLOCK, brk);
      var bp: int;
      bp, brk := MemSbrk(mem.Length, brk, size);
      if bp == -1 {
        return 0;
      }
      WriteFreeTags(mem, bp, size, w);
      ExtendWired(h, mem[..], B, bp, w, s);
      ghost var h1, B0, C := mem[..], B, B[bp := Block(w, true)];
      B := C;
      r := Coalesce(bp);
      KeepsLiveTrans(h, h1, mem[..], B0, C);
    }

    /** Allocate `size` bytes (w words) in the free block whose payload is bp, splitting it when 16 bytes or more
        remain. */
    method Place(bp: nat, size: nat, ghost w: nat)
      requires Valid() && bp >= 1 && bp - 1 in B && B[bp - 1].free && w <= B[bp - 1].words
      requires size == 4 * w && w >= 4 && w % 2 == 0
      modifies this`B, this`s, mem
      ensures Valid()
      ensures Placed(old(B), old(s), B, s, bp - 1, w)
      ensures KeepsLive(old(mem[..]), mem[..], old(B))
    {
      var block := bp - 1;
      NeighbourTags(mem[..], B, FIRST_BLOCK, brk, block);
      var bsize := BlockSize(mem[block]);
      if bsize - size >= 16 {
        PlaceInPart(block, size, bsize, w);
      } else {
        PlaceInWhole(block, bsize, w);
      }
    }

    // The branch of place that uses up the block.
    method PlaceInWhole(block: nat, bsize: nat, ghost w: nat)
      requires Valid() && block in B && B[block].free && bsize == 4 * B[block].words && w <= B[block].words < w + 4
      modifies this`B, this`s, mem
      ensures Valid()
      ensures Placed(old(B), old(s), B, s, block, w)
      ensures KeepsLive(old(mem[..]), mem[..], old(B))
    {
      ghost var h := mem[..];
      assert BlockFits(B, FIRST_BLOCK, brk, block);
      MarkWhole(mem, block, bsize, B);
      ghost var h1 := mem[..];
      ghost var k := PlaceReads(h, h1, B, brk, s, block, {block, End(B, block) - 1});
      UnlinkPlaced(block, k);
      PlaceWhole(h, h1, mem[..], B, brk, s, k, block);
      B := Mark(B, block, false);
      s := Without(s, block);
    }

    method UnlinkPlaced(block: nat, ghost k: nat)
      requires UnlinkReads(mem[..], s, k) && s[k] == block
      modifies mem
      ensures Unlinked(old(mem[..]), mem[..], HEAD, s, k)
    {
      var next := mem[block + 1];
      var prev := mem[block + 2];
      if BlockFree(mem[next]) == 0 {
        mem[next + 2] := prev;
      }
      mem[prev + 1] := next;
    }

    // The branch of place that leaves a smaller free block behind, in the place of the old one.
    method PlaceInPart(block: nat, size: nat, bsize: nat, ghost w: nat)
      requires Valid() && block in B && B[block].free && bsize == 4 * B[block].words
      requires size == 4 * w && w % 2 == 0 && 4 <= w && w + 4 <= B[block].words
      modifies this`B, this`s, mem
      ensures Valid()
      ensures Placed(old(B), old(s), B, s, block, w)
      ensures KeepsLive(old(mem[..]), mem[..], old(B))
    {
      ghost var h := mem[..];
      ghost var k := CutTags(block, size, bsize, w);
      ghost var h1 := mem[..];
      var temp := GetFooterEl(mem, block) + 2;
      SubstituteBlock(block, temp, k);
      PlaceSplit(h, h1, mem[..], B, brk, s, k, block, w);
      B := Split(B, block, w);
      s := Replace(s, block, block + w);
    }

    // Its tag writes.
    method CutTags(block: nat, size: nat, bsize: nat, ghost w: nat) returns (ghost k: nat)
      requires Valid() && block in B && B[block].free && bsize == 4 * B[block].words
      requires size == 4 * w && w % 2 == 0 && 4 <= w && w + 4 <= B[block].words
      modifies mem
      ensures k < |s| && s[k] == block && UnlinkReads(mem[..], s, k) && block + w + 3 < mem.Length
      ensures SplitTagged(old(mem[..]), mem[..], B, block, w) && SizeInWords(mem[block]) == w
      ensures k > 0 ==> ClearBy(s[k - 1], block, block + w)
      ensures k + 1 < |s| ==> ClearBy(s[k + 1], block, block + w)
    {
      ghost var h := mem[..];
      assert BlockFits(B, FIRST_BLOCK, brk, block);
      WriteSplitTags(mem, block, size, bsize, w, B);
      k := PlaceReads(h, mem[..], B, brk, s, block, {block, block + w - 1, block + w, End(B, block) - 1});
      RestIsFar(B, brk, s, k, block, block + w);
    }

    // The link writes of a split: the remainder takes over the links of the block.
    method SubstituteBlock(block: nat, temp: nat, ghost k: nat)
      requires UnlinkReads(mem[..], s, k) && s[k] == block
      requires block + 4 < temp && temp + 2 < mem.Length <= MAX_WORDS
      requires k > 0 ==> ClearBy(s[k - 1], block, temp - 1)
      requires k + 1 < |s| ==> ClearBy(s[k + 1], block, temp - 1)
      modifies mem
      ensures Replaced(old(mem[..]), mem[..], HEAD, s, k, temp - 1)
    {
      mem[temp] := mem[block + 1];
      mem[temp + 1] := mem[block + 2];
      var next := mem[temp];
      var prev := mem[temp + 1];
      mem[prev + 1] := temp - 1;
      if BlockFree(mem[next]) == 0 {
        mem[next + 2] := temp - 1;
      }
    }

    /** malloc. The request is rounded up and taken from the first block of the list that fits, or from fresh words
        when none does; it fails, changing nothing, only when those run out too. */
    method Malloc(size: nat) returns (r: nat)
      requires Valid() && size + 15 <= SIZE_MAX
      modifies this, mem
      ensures Valid()
      ensures r == 0 ==> brk == old(brk) && mem[..] == old(mem[..]) && B == old(B) && s == old(s)
      ensures r == 0 <==> size == 0 || NoRoom(CHUNKSIZE, mem.Length, old(B), old(brk), size)
      ensures size > 0 ==> (r == 0 <==> OutOfMemory(4096, 4 * (mem.Length - old(brk)), old(B), size))
      ensures r != 0 ==> GrewBy(4096, 4 * (brk - old(brk)), old(B), size)
      ensures r != 0 ==> Served(old(B), B, brk, r, size) && KeepsLive(old(mem[..]), mem[..], old(B))
      ensures r != 0 ==>
        if exists b :: Fits(old(B), b, GetMallocSize(size)) then
          && brk == old(brk) && SingleList.FirstFit(old(B), old(s), GetMallocSize(size), r - 1)
          && Placed(old(B), old(s), B, s, r - 1, RequestWords(size))
        else
          && r == old(brk) + 1 && brk == old(brk) + GrowWords(CHUNKSIZE, size)
          && GrownAndPlaced(old(B), old(s), B, s, old(brk), GrowWords(CHUNKSIZE, size), RequestWords(size))
    {
      if size == 0 {
        return 0;
      }
      GrowFacts(CHUNKSIZE, size);
      InBytes(CHUNKSIZE, mem.Length, B, brk, size);
      var asize := GetMallocSize(size);
      var bp := FindFirstFit(asize);
      if bp != 0 {
        PlaceServes(B, FIRST_BLOCK, brk, bp - 1, size);
        Place(bp, asize, RequestWords(size));
        return bp;
      }
      ghost var B0, top := B, brk;
      FreshServes(B, FIRST_BLOCK, brk, GrowWords(CHUNKSIZE, size), size);
      r := MallocFresh(size, asize, RequestWords(size));
      if r != 0 {
        FreshServed(B0, B, top, GrowWords(CHUNKSIZE, size), size, brk, r);
      }
    }

    // The part of malloc that extends the heap.
    method MallocFresh(size: nat, asize: nat, ghost w: nat) returns (r: nat)
      requires Valid() && 0 < size && size + 15 <= SIZE_MAX && asize == GetMallocSize(size) && w == RequestWords(size)
      modifies this, mem
      ensures Valid()
      ensures r == 0 <==> GrowWords(CHUNKSIZE, size) > mem.Length - old(brk)
      ensures r == 0 ==> brk == old(brk) && mem[..] == old(mem[..]) && B == old(B) && s == old(s)
      ensures r != 0 ==> KeepsLive(old(mem[..]), mem[..], old(B))
      ensures r != 0 ==>
        && r == old(brk) + 1 && brk == old(brk) + GrowWords(CHUNKSIZE, size)
        && GrownAndPlaced(old(B), old(s), B, s, old(brk), GrowWords(CHUNKSIZE, size), w)
    {
      var esize := if asize > CHUNKSIZE then asize else CHUNKSIZE;
      ghost var h, B0, s0, top, g := mem[..], B, s, brk, GrowWords(CHUNKSIZE, size);
      GrowFacts(CHUNKSIZE, size);
      var words := esize / 4;
      assert words == g;
      r := ExtendHeap(words, g);
      if r != 0 {
        ghost var h1, B1, s1 := mem[..], B, s;
        Place(r + 1, asize, w);
        PlacedInFresh(B0, s0, B1, s1, B, s, top, g, w);
        KeepsLiveTrans(h, h1, mem[..], B0, B1);
        r := r + 1;
      }
    }

    /** free. The block joins its free neighbours, unless it ends at the heap top. */
    method Free(ptr: nat)
      requires Valid() && (ptr == 0 || ptr - 1 in Live(B))
      modifies this`B, this`s, mem
      ensures Valid()
      ensures ptr == 0 ==> mem[..] == old(mem[..]) && B == old(B) && s == old(s)
      ensures ptr != 0 ==> var B1 := Mark(old(B), ptr - 1, true);
        && Merged(B1, old(s), B, s, brk, ptr - 1)
        && Live(B) == Live(old(B)) - {ptr - 1}
        && KeepsLive(old(mem[..]), mem[..], B1)
    {
      if ptr == 0 {
        return;
      }
      ghost var h, B0, block := mem[..], B, ptr - 1;
      assert BlockFits(B, FIRST_BLOCK, brk, block) && TaggedAt(h, B, block);
      BlockMarkFree(mem, ptr - 1, B);
      ghost var h1, B1 := mem[..], Mark(B, block, true);
      FreeWired(h, h1, B, brk, block, s);
      B := B1;
      var _ := Coalesce(ptr - 1);
      KeepsLiveTrans(h, h1, mem[..], B1, B1);
      LiveMark(B0, block);
      LiveCoalesce(B1, FIRST_BLOCK, brk, block);
    }

    /**
     * What the list is in a valid heap, in terms of the words. Exactly the free blocks occur in it, each once; the
     * block the next link of one names has it as prev, and whatever its prev link names, a block or the prologue, has
     * it as next.
     */
    lemma FreeBlockListedOnce(b: nat) returns (k: nat)
      requires Valid() && b in B && B[b].free
      ensures k < |s| && s[k] == b
      ensures forall m {:trigger s[m]} | 0 <= m < |s| :: s[m] in B && B[s[m]].free && (s[m] == b ==> m == k)
      ensures b + 2 < mem.Length && mem[b + 1] < mem.Length
      ensures mem[b + 1] == At(s, k + 1, EPILOGUE)
      ensures mem[b + 1] != EPILOGUE ==> mem[b + 1] + 2 < mem.Length && mem[mem[b + 1] + 2] == b
      ensures mem[b + 2] == Before(s, k, HEAP_PTR) && mem[b + 2] + 1 < mem.Length && mem[mem[b + 2] + 1] == b
    {
      k := RemoveReads(mem[..], Frees(B), s, {}, b);
      assert k > 0 ==> ChainAt(mem[..], HEAD, s, k - 1);
      assert k + 1 < |s| ==> ChainAt(mem[..], HEAD, s, k + 1);
    }

    /** Header and footer of a block hold its size in bytes, plus one when it is allocated. */
    lemma HeaderWords(b: nat)
      requires Valid() && b in B
      ensures b + B[b].words <= mem.Length && B[b].words >= 4
      ensures mem[b] == mem[b + B[b].words - 1] == 4 * B[b].words + if B[b].free then 0 else 1
    {
      assert BlockFits(B, FIRST_BLOCK, brk, b) && TaggedAt(mem[..], B, b);
    }

    /** Conservation: the blocks met on a walk from the first are all the blocks there are, each once, and together they
        have all the bytes of the heap but 20. */
    lemma BytesConserved()
      requires Valid()
      ensures FIRST_BLOCK in B || brk == FIRST_BLOCK
      ensures var s := Walk(B, FIRST_BLOCK, brk, FIRST_BLOCK);
        Ascending(s) && (forall x {:trigger x in s} :: x in s <==> x in B) && 4 * SumWords(B, s) == 4 * brk - 20
    {
      WalkVisits(B, FIRST_BLOCK, brk, FIRST_BLOCK);
      forall x | x in B ensures x >= FIRST_BLOCK {
        assert BlockFits(B, FIRST_BLOCK, brk, x);
      }
    }

    // The region mem_sbrk serves, before mm_init.
    constructor (capacity: nat)
      requires capacity <= MAX_WORDS
      ensures fresh(mem) && mem.Length == capacity && brk == 0
    {
      mem := new Word[capacity];
      brk := 0;
      B := map[];
      s := [];
    }

    /** mm_init: an empty list, then one chunk of free heap; -1 when the region is too small. */
    method MmInit() returns (r: int)
      requires brk == 0 && mem.Length <= MAX_WORDS
      modifies this, mem
      ensures r == 0 || r == -1
      ensures r == 0 <==> mem.Length >= 1029
      ensures r == 0 ==> Valid() && brk == 1029 && B == map[5 := Block(1024, true)] && s == [5]
    {
      var p: int;
      p, brk := MemSbrk(mem.Length, brk, 5 * 4);
      if p == -1 {
        return -1;
      }
      mem[0] := 0;
      mem[1] := 16 + 1;
      mem[2] := 4;
      mem[3] := 16 + 1;
      mem[4] := 0 + 1;
      B := map[];
      s := [];
      var bp := ExtendHeap(CHUNKSIZE / 4, CHUNKSIZE / 4);
      r := if bp == 0 then -1 else 0;
    }
  }
}
