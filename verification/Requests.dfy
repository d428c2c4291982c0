/** What a caller is promised when a request is served, whichever allocator serves it. */
module Requests {
  import opened Words
  import opened Blocks

  // Words allocated for a request of `size` bytes.
  function RequestWords(size: nat): nat
    requires size <= SIZE_MAX
  {
    GetMallocSize(size) / 4
  }

  /** The rounded size of a request that does not wrap, in words. */
  lemma RequestFits(size: nat)
    requires 0 < size && size + 15 <= SIZE_MAX
    ensures var w := RequestWords(size);
      GetMallocSize(size) == 4 * w && w % 2 == 0 && w >= 4 && size + 8 <= 4 * w <= size + 15
  {
    GetMallocSizeExact(size);
    var k := GetMallocSize(size) / 8;
    assert GetMallocSize(size) == 8 * k;
    assert RequestWords(size) == 2 * k;
  }

  // No block fits, and a heap of at most `limit` words that ends at brk cannot grow by what malloc asks for.
  ghost predicate NoRoom(chunk: nat, limit: nat, B: Layout, brk: nat, size: nat)
    requires size <= SIZE_MAX
  {
    GrowWords(chunk, size) > limit - brk && forall b :: !Fits(B, b, GetMallocSize(size))
  }

  // Words the heap grows by when no block fits.
  function GrowWords(chunk: nat, size: nat): nat
    requires size <= SIZE_MAX
  {
    (if GetMallocSize(size) > chunk then GetMallocSize(size) else chunk) / 4
  }

  lemma GrowFacts(chunk: nat, size: nat)
    requires chunk % 8 == 0 && chunk >= 16 && 0 < size && size + 15 <= SIZE_MAX
    ensures var g := GrowWords(chunk, size); g % 2 == 0 && g >= chunk / 4 && 4 <= RequestWords(size) <= g
    ensures GetMallocSize(size) == 4 * RequestWords(size) && RequestWords(size) % 2 == 0
  {
    RequestFits(size);
    assert chunk == 8 * (chunk / 8) && chunk / 4 == 2 * (chunk / 8);
  }

  // The bytes a block takes that holds n bytes and its two tags, and the bytes to ask for when none does.
  function BlockBytes(size: nat): (r: nat)
    ensures r % 8 == 0 && size + 8 <= r < size + 16
  {
    RoundUp8(size + 8)
  }

  function GrowBytes(chunk: nat, size: nat): (r: nat)
    requires chunk % 8 == 0
    ensures r % 8 == 0 && r >= chunk && r >= size + 8
  {
    if BlockBytes(size) > chunk then BlockBytes(size) else chunk
  }

  lemma SameResidue(m: int, n: int)
    requires m % 8 == 0 && n % 8 == 0 && m < n + 8 && n < m + 8
    ensures m == n
  {
  }

  /** A block is the least multiple of eight that holds the request and its tags. */
  lemma RequestIsLeast(size: nat)
    requires 0 < size && size + 15 <= SIZE_MAX
    ensures 4 * RequestWords(size) == GetMallocSize(size) == BlockBytes(size)
  {
    RequestFits(size);
    SameResidue(GetMallocSize(size), BlockBytes(size));
  }

  /** The heap grows by the least multiple of eight that is at least the chunk and at least the request and its tags. */
  lemma GrowIsLeast(chunk: nat, size: nat)
    requires chunk % 8 == 0 && chunk >= 16 && 0 < size && size + 15 <= SIZE_MAX
    ensures 4 * GrowWords(chunk, size) == GrowBytes(chunk, size)
    ensures forall m: nat | m % 8 == 0 && m >= chunk && m >= size + 8 :: GrowBytes(chunk, size) <= m
  {
    RequestIsLeast(size);
    WordsExact(BlockBytes(size));
    WordsExact(chunk);
    forall m: nat | m % 8 == 0 && m >= chunk && m >= size + 8 ensures GrowBytes(chunk, size) <= m {
      LeastMultiple(size, m);
    }
  }

  lemma LeastMultiple(size: nat, m: nat)
    requires m % 8 == 0 && m >= size + 8
    ensures BlockBytes(size) <= m
  {
  }

  lemma WordsExact(n: nat)
    requires n % 8 == 0
    ensures 4 * (n / 4) == n
  {
  }

  // No free block has room for the request.
  ghost predicate AllTooSmall(B: Layout, size: nat) {
    forall b {:trigger b in B} | b in B && B[b].free :: 4 * B[b].words < BlockBytes(size)
  }

  // In bytes: that, and less is left of the heap than has to be asked for.
  ghost predicate OutOfMemory(chunk: nat, left: int, B: Layout, size: nat)
    requires chunk % 8 == 0
  {
    AllTooSmall(B, size) && GrowBytes(chunk, size) > left
  }

  // The heap has grown by this many bytes to serve a request.
  ghost predicate GrewBy(chunk: nat, grown: int, B: Layout, size: nat)
    requires chunk % 8 == 0
  {
    grown == if AllTooSmall(B, size) then GrowBytes(chunk, size) else 0
  }

  lemma TooSmallIs(B: Layout, size: nat)
    requires 0 < size && size + 15 <= SIZE_MAX
    ensures AllTooSmall(B, size) <==> forall b :: !Fits(B, b, GetMallocSize(size))
  {
    RequestIsLeast(size);
    if AllTooSmall(B, size) {
      forall b ensures !Fits(B, b, GetMallocSize(size)) {
      }
    } else {
      var b :| b in B && B[b].free && 4 * B[b].words >= BlockBytes(size);
      assert Fits(B, b, GetMallocSize(size));
    }
  }

  lemma InBytes(chunk: nat, limit: nat, B: Layout, brk: nat, size: nat)
    requires chunk % 8 == 0 && chunk >= 16 && 0 < size && size + 15 <= SIZE_MAX
    ensures NoRoom(chunk, limit, B, brk, size) <==> OutOfMemory(chunk, 4 * (limit - brk), B, size)
    ensures
      GrewBy(chunk, if exists b :: Fits(B, b, GetMallocSize(size)) then 0 else 4 * GrowWords(chunk, size), B, size)
  {
    TooSmallIs(B, size);
    GrowIsLeast(chunk, size);
  }

  /** C is B with one more live block, whose payload r is aligned, inside the heap, new to the caller, and large
      enough for `size` bytes without wasting more than 23. Everything else the caller owns is as before. */
  ghost predicate Served(B: Layout, C: Layout, hi: nat, r: nat, size: nat) {
    && r >= 1
    && r - 1 in C && !C[r - 1].free
    && r - 1 !in Live(B)
    && Live(C) == Live(B)[r - 1 := C[r - 1].words - 2]
    && 4 * r % 8 == 0
    && End(C, r - 1) <= hi
    && size + 8 <= 4 * C[r - 1].words <= size + 23
  }

  lemma PlaceServes(B: Layout, lo: nat, hi: nat, a: nat, size: nat)
    requires Tiles(B, lo, hi) && a in B && B[a].free && 0 < size && size + 15 <= SIZE_MAX
    requires RequestWords(size) <= B[a].words
    ensures Served(B, Place(B, a, RequestWords(size)), hi, a + 1, size)
    ensures Tiles(Place(B, a, RequestWords(size)), lo, hi)
  {
    var w := RequestWords(size);
    var C := Place(B, a, w);
    RequestFits(size);
    assert BlockFits(B, lo, hi, a);
    if Splits(B, a, w) {
      SplitTiles(B, lo, hi, a, w);
    } else {
      MarkTiles(B, lo, hi, a, false);
    }
    LivePlace(B, a, w);
    assert a in Live(C);
    LiveRegions(C, lo, hi, a, a);
  }

  // Growing the heap by g words at the top and allocating there would serve the request.
  ghost predicate FreshServing(B: Layout, top: nat, g: nat, size: nat) {
    && size <= SIZE_MAX && RequestWords(size) <= g
    && Served(B, Place(B[top := Block(g, true)], top, RequestWords(size)), top + g, top + 1, size)
  }

  /** Growing the heap first makes no difference to the caller. */
  lemma FreshServes(B: Layout, lo: nat, top: nat, g: nat, size: nat)
    requires Tiles(B, lo, top) && g >= 4 && g % 2 == 0 && 0 < size && size + 15 <= SIZE_MAX && RequestWords(size) <= g
    ensures FreshServing(B, top, g, size)
  {
    TopOdd(B, lo, top);
    ExtendTiles(B, lo, top, g);
    PlaceServes(B[top := Block(g, true)], lo, top + g, top, size);
    LiveExtend(B, top, g);
  }

  lemma FreshServed(B: Layout, C: Layout, top: nat, g: nat, size: nat, hi: nat, r: nat)
    requires FreshServing(B, top, g, size) && C == Place(B[top := Block(g, true)], top, RequestWords(size))
    requires hi == top + g && r == top + 1
    ensures Served(B, C, hi, r, size)
  {
  }
}
