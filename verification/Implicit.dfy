/** The implicit-list allocator of mm-implicit.c: boundary tags only, first fit by address, always coalescing.
    Addresses are word indices; word 0 is 8-byte aligned. The epilogue is the last word of the heap. */
module Implicit {
  import opened Words
  import opened Blocks
  import opened Links
  import opened Tags
  import opened Requests
  import opened Heap
  import opened Fragmentation
  import opened Bytes

  const CHUNKSIZE: nat := 4096
  const FIRST_BLOCK := 3

  // The lowest free block of at least `size` bytes.
  ghost predicate FirstFit(B: Layout, a: nat, size: nat) {
    && a in B && B[a].free && 4 * B[a].words >= size
    && forall b | b in B && B[b].free && b < a :: 4 * B[b].words < size
  }

  ghost predicate NoFit(B: Layout, size: nat) {
    forall b | b in B && B[b].free :: 4 * B[b].words < size
  }

  lemma NoFitInBytes(limit: nat, B: Layout, brk: nat, size: nat)
    requires 0 < size && size + 15 <= SIZE_MAX
    ensures NoFit(B, GetMallocSize(size)) && GrowWords(CHUNKSIZE, size) > limit - brk
      <==> OutOfMemory(CHUNKSIZE, 4 * (limit - brk), B, size)
    ensures
      GrewBy(CHUNKSIZE, if NoFit(B, GetMallocSize(size)) then 4 * GrowWords(CHUNKSIZE, size) else 0, B, size)
  {
    RequestIsLeast(size);
    GrowIsLeast(CHUNKSIZE, size);
    assert AllTooSmall(B, size) <==> NoFit(B, GetMallocSize(size));
  }

  // B with w free words added at hi and merged with the last block if that is free.
  ghost function Extended(B: Layout, hi: nat, w: nat): Layout
    requires w > 0
  {
    Coalesce(B[hi := Block(w, true)], hi)
  }

  ghost function ExtendedAt(B: Layout, hi: nat, w: nat): nat {
    MergeStart(B[hi := Block(w, true)], hi)
  }

  // A block of w words at a; the merge with its free neighbours would span [m, e).
  datatype Site = Site(a: nat, w: nat, left: bool, m: nat, right: bool, e: nat)

  ghost function SiteOf(B: Layout, a: nat): Site
    requires a in B
  {
    Site(a, B[a].words, LeftFree(B, a), MergeStart(B, a), RightFree(B, a),
         if RightFree(B, a) then End(B, End(B, a)) else End(B, a))
  }

  // What coalesce reads at a site.
  ghost predicate SiteReads(h: seq<Word>, s: Site) {
    && 0 < s.a && s.w >= 4 && s.a + s.w <= s.e < |h| && s.w % 2 == 0
    && SizeInWords(h[s.a]) == s.w && BlockSize(h[s.a]) == 4 * s.w
    && SiteLeft(h, s) && SiteRight(h, s)
  }

  ghost predicate SiteLeft(h: seq<Word>, s: Site) {
    && 0 < s.a < |h|
    && if s.left then s.m + 4 <= s.a && (s.a - s.m) % 2 == 0 && SizeInWords(h[s.a - 1]) == s.a - s.m
                      && BlockSize(h[s.m]) == 4 * (s.a - s.m)
       else s.m == s.a
  }

  ghost predicate SiteRight(h: seq<Word>, s: Site) {
    && s.a + s.w <= s.e < |h|
    && if s.right then s.a + s.w + 4 <= s.e && (s.e - s.a) % 2 == 0 && SizeInWords(h[s.a + s.w]) == s.e - (s.a + s.w)
                       && BlockSize(h[s.a + s.w]) == 4 * (s.e - (s.a + s.w))
       else s.e == s.a + s.w
  }

  lemma MergeIs(h: seq<Word>, h1: seq<Word>, B: Layout, hi: nat, a: nat)
    requires Tiles(B, FIRST_BLOCK, hi) && hi < |h| && Tagged(h, B) && a in B && B[a].free && B[a].words > 0
    requires var s := SiteOf(B, a);
      SiteReads(h, s) && Wrote(h, h1, {s.m, s.e - 1}) && h1[s.m] == h1[s.e - 1] == 4 * (s.e - s.m)
    ensures Tiles(Blocks.Coalesce(B, a), FIRST_BLOCK, hi) && Tagged(h1, Blocks.Coalesce(B, a)) && KeepsLive(h, h1, B)
    ensures forall i {:trigger h1[i]} | 0 <= i < |h| && (i < FIRST_BLOCK || hi <= i) :: h1[i] == h[i]
  {
    CoalesceParts(B, FIRST_BLOCK, hi, a);
    assert MergeTagged(h, h1, B, a);
    MergeDone(h, h1, h1, B, FIRST_BLOCK, hi, 0, a);
    assert BlockFits(B, FIRST_BLOCK, hi, MergeStart(B, a)) && BlockFits(B, FIRST_BLOCK, hi, MergeLast(B, a));
  }

  lemma ExtendIs(h: seq<Word>, h1: seq<Word>, B: Layout, hi: nat, w: nat)
    requires Tiles(B, FIRST_BLOCK, hi) && hi + w < |h| && Tagged(h, B) && NoAdjacentFree(B)
    requires w >= 4 && w % 2 == 0 && hi % 2 == 1
    requires Wrote(h, h1, {hi, hi + w - 1, hi + w}) && h1[hi] == h1[hi + w - 1] == 4 * w
    ensures hi !in B && Tiles(B[hi := Block(w, true)], FIRST_BLOCK, hi + w) && Tagged(h1, B[hi := Block(w, true)])
    ensures NoAdjacentFreeBut(B[hi := Block(w, true)], hi)
    ensures KeepsLive(h, h1, B)
  {
    var C := B[hi := Block(w, true)];
    ExtendTiles(B, FIRST_BLOCK, hi, w);
    ExtendKeeps(B, FIRST_BLOCK, hi, w);
    forall c | c in B ensures KeepsRange(h, h1, c, End(B, c)) && TaggedAt(h1, C, c) {
      assert BlockFits(B, FIRST_BLOCK, hi, c) && TaggedAt(h, B, c);
    }
    assert TaggedAt(h1, C, hi);
  }

  // The tag writes of place.
  ghost predicate PlaceTagged(h: seq<Word>, h1: seq<Word>, B: Layout, a: nat, w: nat) {
    && a in B && 4 <= w <= B[a].words
    && var C := Blocks.Place(B, a, w);
       && WroteWithin(h, h1, a, End(B, a))
       && TaggedAt(h1, C, a)
       && (Splits(B, a, w) ==> TaggedAt(h1, C, a + w))
  }

  lemma PlaceIs(h: seq<Word>, h1: seq<Word>, B: Layout, hi: nat, a: nat, w: nat)
    requires Tiles(B, FIRST_BLOCK, hi) && hi < |h| && Tagged(h, B) && a in B && B[a].free
    requires 4 <= w <= B[a].words && w % 2 == 0 && PlaceTagged(h, h1, B, a, w)
    ensures Tiles(Blocks.Place(B, a, w), FIRST_BLOCK, hi) && Tagged(h1, Blocks.Place(B, a, w)) && KeepsLive(h, h1, B)
    ensures forall i {:trigger h1[i]} | 0 <= i < |h| && (i < FIRST_BLOCK || hi <= i) :: h1[i] == h[i]
  {
    var C := Blocks.Place(B, a, w);
    assert BlockFits(B, FIRST_BLOCK, hi, a);
    if Splits(B, a, w) {
      SplitTiles(B, FIRST_BLOCK, hi, a, w);
    } else {
      MarkTiles(B, FIRST_BLOCK, hi, a, false);
    }
    assert CutInto(h1, B, C, a);
    CutTagged(h, h1, B, C, FIRST_BLOCK, hi, a);
    CutKeeps(h, h1, B, FIRST_BLOCK, hi, a);
  }

  ghost predicate Placed(B: Layout, C: Layout, a: nat, w: nat) {
    && a in B && w <= B[a].words
    && C == Blocks.Place(B, a, w)
  }

  ghost predicate GrownAndPlaced(B: Layout, C: Layout, hi: nat, g: nat, a: nat, w: nat) {
    && hi !in B && g > 0
    && a == ExtendedAt(B, hi, g)
    && Placed(Extended(B, hi, g), C, a, w)
  }

  /**
   * Allocating `size` bytes in block a takes B, which ends at hi, to C, which ends at hi': in the lowest block that
   * fits, or in the last block of the grown heap when none does.
   */
  ghost predicate Allocated(B: Layout, hi: nat, C: Layout, hi': nat, a: nat, size: nat)
    requires size <= SIZE_MAX
  {
    if NoFit(B, GetMallocSize(size)) then
      && hi' == hi + GrowWords(CHUNKSIZE, size)
      && GrownAndPlaced(B, C, hi, GrowWords(CHUNKSIZE, size), a, RequestWords(size))
    else
      hi' == hi && FirstFit(B, a, GetMallocSize(size)) && Placed(B, C, a, RequestWords(size))
  }

  /** C is B with live block a freed and merged with its free neighbours. */
  ghost predicate Released(B: Layout, C: Layout, a: nat) {
    && a in B && !B[a].free && B[a].words > 0
    && C == Blocks.Coalesce(Mark(B, a, true), a)
    && Live(C) == Live(B) - {a}
  }

  lemma ReleasedIs(B: Layout, hi: nat, a: nat)
    requires Tiles(B, FIRST_BLOCK, hi) && a in B && !B[a].free
    ensures B[a].words > 0 && Released(B, Blocks.Coalesce(Mark(B, a, true), a), a)
  {
    assert BlockFits(B, FIRST_BLOCK, hi, a);
    MarkTiles(B, FIRST_BLOCK, hi, a, true);
    LiveMark(B, a);
    LiveCoalesce(Mark(B, a, true), FIRST_BLOCK, hi, a);
  }

  lemma FreeIs(h: seq<Word>, h1: seq<Word>, B: Layout, hi: nat, a: nat)
    requires Tiles(B, FIRST_BLOCK, hi) && hi < |h| && Tagged(h, B) && a in B && !B[a].free && NoAdjacentFree(B)
    requires WroteWithin(h, h1, a, End(B, a)) && TaggedAt(h1, Mark(B, a, true), a)
    ensures Tiles(Mark(B, a, true), FIRST_BLOCK, hi) && Tagged(h1, Mark(B, a, true))
    ensures NoAdjacentFreeBut(Mark(B, a, true), a)
    ensures KeepsLive(h, h1, Mark(B, a, true))
    ensures forall i {:trigger h1[i]} | 0 <= i < |h| && (i < FIRST_BLOCK || hi <= i) :: h1[i] == h[i]
  {
    var C := Mark(B, a, true);
    MarkTiles(B, FIRST_BLOCK, hi, a, true);
    MarkKeeps(B, FIRST_BLOCK, hi, a);
    CutTagged(h, h1, B, C, FIRST_BLOCK, hi, a);
    CutKeeps(h, h1, B, FIRST_BLOCK, hi, a);
    forall c | c in C && !C[c].free ensures KeepsRange(h, h1, c, End(C, c)) {
      assert KeepsRange(h, h1, c, End(B, c));
    }
  }

  /** A malloc that found its block without growing the heap, followed by free of the result, restores the blocks
      exactly: the same addresses, sizes and free bits. */
  lemma MallocThenFree(B: Layout, C: Layout, D: Layout, hi: nat, a: nat, size: nat)
    requires Tiles(B, FIRST_BLOCK, hi) && NoAdjacentFree(B) && 0 < size && size + 15 <= SIZE_MAX
    requires a in B && B[a].free && Placed(B, C, a, RequestWords(size)) && Released(C, D, a)
    ensures D == B
  {
    RequestFits(size);
    PlaceThenFree(B, FIRST_BLOCK, hi, a, RequestWords(size));
  }

  // Where the grown heap has its last free block, the request is served.
  ghost predicate GrownServing(B: Layout, hi: nat, g: nat, m: nat, size: nat) {
    && Tiles(B[hi := Block(g, true)], FIRST_BLOCK, hi + g)
    && g > 0 && size <= SIZE_MAX
    && m in Extended(B, hi, g) && Extended(B, hi, g)[m].free && RequestWords(size) <= Extended(B, hi, g)[m].words
    && Served(B, Blocks.Place(Extended(B, hi, g), m, RequestWords(size)), hi + g, m + 1, size)
  }

  lemma GrownServes(B: Layout, hi: nat, g: nat, m: nat, size: nat)
    requires Tiles(B, FIRST_BLOCK, hi) && hi % 2 == 1 && g >= 4 && g % 2 == 0 && m == ExtendedAt(B, hi, g)
    requires 0 < size && size + 15 <= SIZE_MAX && RequestWords(size) <= g
    ensures GrownServing(B, hi, g, m, size)
  {
    var C := B[hi := Block(g, true)];
    ExtendTiles(B, FIRST_BLOCK, hi, g);
    CoalesceParts(C, FIRST_BLOCK, hi + g, hi);
    var D := Extended(B, hi, g);
    assert !RightFree(C, hi) by {
      assert hi + g in C ==> BlockFits(C, FIRST_BLOCK, hi + g, hi + g);
    }
    PlaceServes(D, FIRST_BLOCK, hi + g, m, size);
    LiveCoalesce(C, FIRST_BLOCK, hi + g, hi);
    LiveExtend(B, hi, g);
  }

  lemma ExtendedFacts(B: Layout, hi: nat, g: nat, m: nat)
    requires Tiles(B, FIRST_BLOCK, hi) && hi % 2 == 1 && NoAdjacentFree(B) && g >= 4 && g % 2 == 0
    requires m == ExtendedAt(B, hi, g)
    ensures Tiles(Extended(B, hi, g), FIRST_BLOCK, hi + g) && NoAdjacentFree(Extended(B, hi, g))
    ensures m in Extended(B, hi, g) && Extended(B, hi, g)[m].free
  {
    ExtendTiles(B, FIRST_BLOCK, hi, g);
    ExtendKeeps(B, FIRST_BLOCK, hi, g);
    CoalesceParts(B[hi := Block(g, true)], FIRST_BLOCK, hi + g, hi);
    CoalesceRepairs(B[hi := Block(g, true)], FIRST_BLOCK, hi + g, hi);
  }

  /** The same for a malloc that grew the heap: what remains is the growth alone. */
  lemma GrownThenFree(B: Layout, C: Layout, D: Layout, hi: nat, g: nat, a: nat, size: nat)
    requires Tiles(B, FIRST_BLOCK, hi) && hi % 2 == 1 && NoAdjacentFree(B) && g >= 4 && g % 2 == 0
    requires 0 < size && size + 15 <= SIZE_MAX
    requires GrownAndPlaced(B, C, hi, g, a, RequestWords(size)) && Released(C, D, a)
    ensures D == Extended(B, hi, g)
  {
    ExtendedFacts(B, hi, g, a);
    MallocThenFree(Extended(B, hi, g), C, D, hi + g, a, size);
  }

  // D are the blocks of B again or, when the heap grew to serve a request of `size` bytes, those of the grown heap.
  ghost predicate Restored(B: Layout, hi: nat, D: Layout, hi': nat, size: nat)
    requires size <= SIZE_MAX
  {
    if hi' == hi then D == B
    else
      && GrowWords(CHUNKSIZE, size) > 0 && hi' == hi + GrowWords(CHUNKSIZE, size)
      && D == Extended(B, hi, GrowWords(CHUNKSIZE, size))
  }

  lemma FreedAfter(B: Layout, hi: nat, C: Layout, hi': nat, D: Layout, a: nat, size: nat)
    requires Tiles(B, FIRST_BLOCK, hi) && NoAdjacentFree(B) && hi % 2 == 1
    requires 0 < size && size + 15 <= SIZE_MAX && Allocated(B, hi, C, hi', a, size) && Released(C, D, a)
    ensures Restored(B, hi, D, hi', size)
  {
    GrowFacts(CHUNKSIZE, size);
    if NoFit(B, GetMallocSize(size)) {
      GrownThenFree(B, C, D, hi, GrowWords(CHUNKSIZE, size), a, size);
    } else {
      MallocThenFree(B, C, D, hi, a, size);
    }
  }

  // What either of them leaves of the live words.
  lemma BothKeepLive(h: seq<Word>, h1: seq<Word>, h2: seq<Word>, B: Layout, C: Layout, hi: nat, r: nat, a: nat,
                     size: nat)
    requires Served(B, C, hi, r, size) && r == a + 1 && KeepsLive(h, h1, B) && KeepsLive(h1, h2, Mark(C, a, true))
    ensures KeepsLive(h, h2, B)
  {
    forall b | b in B && !B[b].free ensures b in Mark(C, a, true) && Mark(C, a, true)[b] == B[b] {
      assert b in Live(B) && b in Live(C) && Live(C)[b] == Live(B)[b];
    }
    KeepsLiveTrans(h, h1, h2, B, Mark(C, a, true));
  }

  lemma GrownIs(B: Layout, C: Layout, hi: nat, g: nat, m: nat, size: nat, top: nat, r: nat)
    requires size <= SIZE_MAX && GrownAndPlaced(B, C, hi, g, m, RequestWords(size))
    requires GrownServing(B, hi, g, ExtendedAt(B, hi, g), size) && top == hi + g && r == m + 1
    ensures Served(B, C, top, r, size)
  {
  }

  lemma ExtendedKeepsLive(h: seq<Word>, h1: seq<Word>, h2: seq<Word>, B: Layout, B1: Layout, hi: nat, g: nat)
    requires g > 0 && Tiles(B[hi := Block(g, true)], FIRST_BLOCK, hi + g) && hi !in B && B1 == Extended(B, hi, g)
    requires KeepsLive(h, h1, B) && KeepsLive(h1, h2, B1)
    ensures KeepsLive(h, h2, B)
  {
    CoalesceParts(B[hi := Block(g, true)], FIRST_BLOCK, hi + g, hi);
    KeepsLiveTrans(h, h1, h2, B, B1);
  }

  // ---- realloc ---------------------------------------------------------------

  // The bytes that realloc preserves: the request or the old payload, whichever is smaller.
  ghost function Preserved(B: Layout, o: nat, size: nat): nat
    requires o in B
  {
    if B[o].words < 2 then 0 else if size < 4 * (B[o].words - 2) then size else 4 * (B[o].words - 2)
  }

  // The payload of size' bytes at p and that at q start with the same bytes, as far as `size` goes.
  ghost predicate SameStart(h: seq<Word>, h': seq<Word>, p: nat, q: nat, size: nat, size': int) {
    && size' >= 0
    && var n: nat := if size < size' then size else size';
       && p + WordsOf(n) <= |h| && q + WordsOf(n) <= |h'|
       && SameWords(h, h', p, q, n)
  }

  lemma StartIsSame(h: seq<Word>, h': seq<Word>, B: Layout, p: nat, q: nat, size: nat)
    requires p >= 1 && p - 1 in Live(B) && Live(B)[p - 1] >= 0
    requires KeepsContents(h, h', p, q, Preserved(B, p - 1, size))
    ensures SameStart(h, h', p, q, size, 4 * Live(B)[p - 1])
  {
    ContentsAreWords(h, h', p, q, Preserved(B, p - 1, size));
  }

  /** C is B with the live block o replaced by a new live block a, which has room for `size` bytes. */
  ghost predicate Moved(B: Layout, C: Layout, hi: nat, o: nat, a: nat, size: nat) {
    && o in Live(B) && a in C && !C[a].free && a !in Live(B)
    && Live(C) == Live(B)[a := C[a].words - 2] - {o}
    && 4 * (a + 1) % 8 == 0 && End(C, a) <= hi
    && size + 8 <= 4 * C[a].words <= size + 23
  }

  lemma StillLive(B: Layout, B1: Layout, o: nat, a: nat)
    requires o in Live(B) && a in B1 && a !in Live(B) && Live(B1) == Live(B)[a := B1[a].words - 2]
    ensures o in Live(B1) && o in B1 && !B1[o].free && B1[o] == B[o] && o != a
    ensures !B1[a].free ==> a in Live(B1)
  {
    assert Live(B1)[o] == Live(B)[o];
  }

  // memcpy stays inside the new payload, off the source, even when it reads two words past the old payload.
  lemma RoomToCopy(B: Layout, hi: nat, o: nat, a: nat, size: nat, n: nat)
    requires Tiles(B, FIRST_BLOCK, hi) && o in B && a in B && o != a && size + 8 <= 4 * B[a].words
    requires n <= size && n <= 4 * B[o].words
    ensures o + 1 + WordsOf(n) <= hi + 1 && a + 1 + WordsOf(n) <= End(B, a) - 1 && End(B, a) <= hi
    ensures a + 1 + WordsOf(n) <= o + 1 || o + 1 + WordsOf(n) <= a + 1
  {
    assert Apart(B, o, a) && BlockFits(B, FIRST_BLOCK, hi, o) && BlockFits(B, FIRST_BLOCK, hi, a);
  }

  lemma CopyIs(h: seq<Word>, h1: seq<Word>, B: Layout, hi: nat, a: nat, n: nat)
    requires Tiles(B, FIRST_BLOCK, hi) && hi < |h| && Tagged(h, B) && a in B
    requires a + 1 + WordsOf(n) <= End(B, a) - 1 && WroteWithin(h, h1, a + 1, a + 1 + WordsOf(n))
    ensures Tagged(h1, B) && KeepsOthers(h, h1, B, a)
    ensures forall i {:trigger h1[i]} | 0 <= i < |h| && (i < FIRST_BLOCK || hi <= i) :: h1[i] == h[i]
  {
    assert TaggedAt(h, B, a) && BlockFits(B, FIRST_BLOCK, hi, a);
    CutTagged(h, h1, B, B, FIRST_BLOCK, hi, a);
    CutKeeps(h, h1, B, FIRST_BLOCK, hi, a);
  }

  lemma MovedIs(B: Layout, B1: Layout, C: Layout, hi: nat, o: nat, a: nat, size: nat)
    requires o in Live(B) && o != a && Served(B, B1, hi, a + 1, size) && Released(B1, C, o)
    ensures Moved(B, C, hi, o, a, size)
  {
    assert a in Live(B1) && a in Live(C);
    assert Live(C)[a] == Live(B1)[a];
  }

  lemma ContentsMoved(h1: seq<Word>, h2: seq<Word>, h3: seq<Word>, B: Layout, o: nat, a: nat, n: nat, size: nat)
    requires o in B && a in B && o != a && !B[a].free && B[o].words >= 4
    requires |h2| == |h1| && KeepsLive(h2, h3, Mark(B, o, true)) && a + 1 + WordsOf(n) <= End(B, a) - 1
    requires n == if size < 4 * B[o].words then size else 4 * B[o].words
    requires KeepsContents(h1, h2, o + 1, a + 1, n)
    ensures KeepsContents(h1, h3, o + 1, a + 1, Preserved(B, o, size))
  {
    assert KeepsRange(h2, h3, a, End(Mark(B, o, true), a));
    KeepsContentsTrans(h1, h1, h2, h3, o + 1, a + 1, n, Preserved(B, o, size));
  }

  // No word of a live block other than o and a changed.
  ghost predicate KeepsBut(h: seq<Word>, h': seq<Word>, B: Layout, o: nat, a: nat) {
    forall c {:trigger KeepsRange(h, h', c, End(B, c))} | c in B && c != o && c != a && !B[c].free ::
      KeepsRange(h, h', c, End(B, c))
  }

  lemma KeepsButIs(h: seq<Word>, h1: seq<Word>, h2: seq<Word>, B: Layout, o: nat, a: nat)
    requires o in B && KeepsOthers(h, h1, B, a) && KeepsLive(h1, h2, Mark(B, o, true))
    ensures KeepsBut(h, h2, B, o, a)
  {
    forall c | c in B && c != o && c != a && !B[c].free ensures KeepsRange(h, h2, c, End(B, c)) {
      assert KeepsRange(h, h1, c, End(B, c)) && KeepsRange(h1, h2, c, End(Mark(B, o, true), c));
    }
  }

  lemma OthersKept(h: seq<Word>, h1: seq<Word>, h2: seq<Word>, B: Layout, B1: Layout, o: nat, a: nat)
    requires a in B1 && a !in Live(B) && Live(B1) == Live(B)[a := B1[a].words - 2]
    requires KeepsLive(h, h1, B) && KeepsBut(h1, h2, B1, o, a)
    ensures KeepsOthers(h, h2, B, o)
  {
    forall c | c in B && c != o && !B[c].free ensures KeepsRange(h, h2, c, End(B, c)) {
      assert c in Live(B) && c in Live(B1) && Live(B1)[c] == Live(B)[c];
      assert KeepsRange(h, h1, c, End(B, c)) && KeepsRange(h1, h2, c, End(B1, c));
    }
  }

  // h: before malloc; h1: after it; h2: after memcpy; h3: after free.
  lemma MoveDone(h: seq<Word>, h1: seq<Word>, h2: seq<Word>, h3: seq<Word>, B: Layout, B1: Layout, C: Layout,
                 hi: nat, o: nat, a: nat, n: nat, size: nat)
    requires o in Live(B) && Served(B, B1, hi, a + 1, size) && KeepsLive(h, h1, B)
    requires B[o].words >= 4 && n == if size < 4 * B[o].words then size else 4 * B[o].words
    requires a + 1 + WordsOf(n) <= End(B1, a) - 1
    requires KeepsContents(h1, h2, o + 1, a + 1, n) && KeepsOthers(h1, h2, B1, a)
    requires Released(B1, C, o) && KeepsLive(h2, h3, Mark(B1, o, true)) && |h1| == |h2|
    ensures Moved(B, C, hi, o, a, size) && KeepsOthers(h, h3, B, o)
    ensures KeepsContents(h, h3, o + 1, a + 1, Preserved(B, o, size))
  {
    StillLive(B, B1, o, a);
    MovedIs(B, B1, C, hi, o, a, size);
    ContentsMoved(h1, h2, h3, B1, o, a, n, size);
    KeepsButIs(h1, h2, h3, B1, o, a);
    assert KeepsRange(h, h1, o, End(B, o));
    KeepsContentsTrans(h, h1, h3, h3, o + 1, a + 1, Preserved(B, o, size), Preserved(B, o, size));
    OthersKept(h, h1, h3, B, B1, o, a);
  }

  class Allocator {
    const mem: array<Word>
    var brk: nat
    ghost var B: Layout

    ghost predicate Consistent()
      reads this, mem
    {
      && FIRST_BLOCK < brk <= mem.Length <= MAX_WORDS
      && mem[1] == mem[2] == 9
      && mem[brk - 1] == 1
      && Tiles(B, FIRST_BLOCK, brk - 1)
      && Tagged(mem[..], B)
    }

    /** Consistent, and in every reachable state no two neighbouring blocks are both free. */
    ghost predicate Valid()
      reads this, mem
    {
      Consistent() && NoAdjacentFree(B)
    }

    function GetFooter(bp: nat): int
      requires 0 < bp <= mem.Length
      reads mem
    {
      bp + SizeInWords(mem[bp - 1]) - 2
    }

    function PrevBp(bp: nat): int
      requires 2 <= bp <= mem.Length
      reads mem
    {
      bp - SizeInWords(mem[bp - 2])
    }

    function NextBp(bp: nat): int
      requires 0 < bp <= mem.Length
      reads mem
    {
      bp + SizeInWords(mem[bp - 1])
    }

    function BlockPrev(block: nat): int
      requires 0 < block <= mem.Length
      reads mem
    {
      block - SizeInWords(mem[block - 1])
    }

    function BlockNext(block: nat): int
      requires block < mem.Length
      reads mem
    {
      block + SizeInWords(mem[block])
    }

    // What the words around block a say about its neighbours, epilogue and prologue included.
    lemma AroundReads(a: nat)
      requires Consistent() && a in B && B[a].free
      ensures SiteReads(mem[..], SiteOf(B, a)) && SiteOf(B, a).e < brk
      ensures 0 <= BlockPrev(a) < mem.Length
      ensures BlockFree(mem[BlockPrev(a)]) == 0 <==> LeftFree(B, a)
      ensures BlockFree(mem[End(B, a)]) == 0 <==> RightFree(B, a)
      ensures LeftFree(B, a) ==> BlockPrev(a) == Left(B, a)
    {
      NeighbourTags(mem[..], B, FIRST_BLOCK, brk - 1, a);
      assert BlockFits(B, FIRST_BLOCK, brk - 1, a);
      LeftReads(a);
      RightReads(a);
    }

    lemma LeftReads(a: nat)
      requires Consistent() && a in B && B[a].free
      ensures SiteLeft(mem[..], SiteOf(B, a)) && 0 <= BlockPrev(a) < mem.Length
      ensures BlockFree(mem[BlockPrev(a)]) == 0 <==> LeftFree(B, a)
      ensures LeftFree(B, a) ==> BlockPrev(a) == Left(B, a)
    {
      NeighbourTags(mem[..], B, FIRST_BLOCK, brk - 1, a);
      if a > FIRST_BLOCK {
        var m := Left(B, a);
        assert BlockFits(B, FIRST_BLOCK, brk - 1, m) && TaggedAt(mem[..], B, m);
        TagParts(B[m], mem[m]);
      }
    }

    lemma RightReads(a: nat)
      requires Consistent() && a in B && B[a].free
      ensures SiteRight(mem[..], SiteOf(B, a)) && SiteOf(B, a).e < brk
      ensures BlockFree(mem[End(B, a)]) == 0 <==> RightFree(B, a)
    {
      NeighbourTags(mem[..], B, FIRST_BLOCK, brk - 1, a);
      var n := End(B, a);
      assert BlockFits(B, FIRST_BLOCK, brk - 1, a);
      assert n in B ==> BlockFits(B, FIRST_BLOCK, brk - 1, n);
      if RightFree(B, a) {
        NeighbourTags(mem[..], B, FIRST_BLOCK, brk - 1, n);
        EvenSum(B[a].words, B[n].words);
      }
    }

    static lemma EvenSum(x: nat, y: nat)
      requires x % 2 == 0 && y % 2 == 0
      ensures (x + y) % 2 == 0
    {
    }

    /** Merge the free block with every free neighbour, by rewriting the two outer tags. */
    method Coalesce(bp: nat) returns (r: nat)
      requires bp >= 1 && Consistent() && bp - 1 in B && B[bp - 1].free && B[bp - 1].words > 0
      modifies this`B, mem
      ensures Consistent()
      ensures B == Blocks.Coalesce(old(B), bp - 1) && r >= 1 && r - 1 == MergeStart(old(B), bp - 1)
      ensures KeepsLive(old(mem[..]), mem[..], old(B))
    {
      ghost var h, a := mem[..], bp - 1;
      AroundReads(a);
      var prevAlloc := BlockFree(mem[BlockPrev(bp - 1)]);
      var nextAlloc := BlockFree(mem[BlockNext(bp - 1)]);
      if prevAlloc != 0 && nextAlloc != 0 {
        KeepsLiveRefl(h, B, FIRST_BLOCK, brk - 1);
        return bp;
      }
      r := WriteMerged(bp, prevAlloc, nextAlloc, SiteOf(B, a));
      MergeIs(h, mem[..], B, brk - 1, a);
      B := Blocks.Coalesce(B, a);
    }

    // The three merging branches of coalesce.
    method WriteMerged(bp: nat, prevAlloc: int, nextAlloc: int, ghost s: Site) returns (r: nat)
      requires bp >= 1 && s.a == bp - 1 && mem.Length <= MAX_WORDS && SiteReads(mem[..], s)
      requires (prevAlloc == 0 <==> s.left) && (nextAlloc == 0 <==> s.right) && (s.left || s.right)
      modifies mem
      ensures Wrote(old(mem[..]), mem[..], {s.m, s.e - 1}) && r == s.m + 1
      ensures mem[s.m] == mem[s.e - 1] == 4 * (s.e - s.m)
    {
      var size := BlockSize(mem[bp - 1]);
      if prevAlloc != 0 {
        r := WriteMergedNext(bp, size, s);
      } else if nextAlloc != 0 {
        r := WriteMergedPrev(bp, size, s);
      } else {
        r := WriteMergedBoth(bp, size, s);
      }
    }

    method WriteMergedNext(bp: nat, sizeBefore: int, ghost s: Site) returns (r: nat)
      requires bp >= 1 && s.a == bp - 1 && mem.Length <= MAX_WORDS && SiteReads(mem[..], s) && !s.left && s.right
      requires sizeBefore == 4 * s.w
      modifies mem
      ensures Wrote(old(mem[..]), mem[..], {s.m, s.e - 1}) && r == s.m + 1
      ensures mem[s.m] == mem[s.e - 1] == 4 * (s.e - s.m)
    {
      var size := sizeBefore + BlockSize(mem[BlockNext(bp - 1)]);
      mem[bp - 1] := size;
      TagParts(Block(s.e - s.m, true), mem[bp - 1]);
      mem[GetFooter(bp)] := size;
      r := bp;
    }

    method WriteMergedPrev(bp: nat, sizeBefore: int, ghost s: Site) returns (r: nat)
      requires bp >= 1 && s.a == bp - 1 && mem.Length <= MAX_WORDS && SiteReads(mem[..], s) && s.left && !s.right
      requires sizeBefore == 4 * s.w
      modifies mem
      ensures Wrote(old(mem[..]), mem[..], {s.m, s.e - 1}) && r == s.m + 1
      ensures mem[s.m] == mem[s.e - 1] == 4 * (s.e - s.m)
    {
      var size := sizeBefore + BlockSize(mem[BlockPrev(bp - 1)]);
      mem[PrevBp(bp) - 1] := size;
      mem[GetFooter(bp)] := size;
      r := PrevBp(bp);
    }

    method WriteMergedBoth(bp: nat, sizeBefore: int, ghost s: Site) returns (r: nat)
      requires bp >= 1 && s.a == bp - 1 && mem.Length <= MAX_WORDS && SiteReads(mem[..], s) && s.left && s.right
      requires sizeBefore == 4 * s.w
      modifies mem
      ensures Wrote(old(mem[..]), mem[..], {s.m, s.e - 1}) && r == s.m + 1
      ensures mem[s.m] == mem[s.e - 1] == 4 * (s.e - s.m)
    {
      var size := sizeBefore + (BlockSize(mem[BlockNext(bp - 1)]) + BlockSize(mem[BlockPrev(bp - 1)]));
      mem[PrevBp(bp) - 1] := size;
      mem[GetFooter(NextBp(bp))] := size;
      r := PrevBp(bp);
    }

    /** Add at least `words` words to the heap, merged with a free last block, or return 0 and change nothing. */
    method ExtendHeap(words: nat, ghost w: nat) returns (r: nat)
      requires Valid() && words >= 4 && w == words + words % 2
      modifies this, mem
      ensures Valid()
      ensures if w <= mem.Length - old(brk) then
          && brk == old(brk) + w && old(brk) - 1 !in old(B)
          && r >= 1 && r - 1 == ExtendedAt(old(B), old(brk) - 1, w)
          && B == Extended(old(B), old(brk) - 1, w)
          && KeepsLive(old(mem[..]), mem[..], old(B))
        else
          r == 0 && brk == old(brk) && mem[..] == old(mem[..]) && B == old(B)
    {
      var size := if words % 2 != 0 then (words + 1) * 4 else words * 4;
      ghost var h, B0, hi := mem[..], B, brk - 1;
      assert size == 4 * w && size / 4 == w;
      TopOdd(B, FIRST_BLOCK, hi);
      var bp: int;
      bp, brk := MemSbrk(mem.Length, brk, size);
      if bp == -1 {
        return 0;
      }
      WriteFreeTags(bp, size, w);
      ghost var h1, C := mem[..], B[hi := Block(w, true)];
      ExtendIs(h, h1, B, hi, w);
      B := C;
      r := Coalesce(bp);
      CoalesceRepairs(C, FIRST_BLOCK, brk - 1, hi);
      KeepsLiveTrans(h, h1, mem[..], B0, C);
    }

    // Header in place of the old epilogue, footer, and a new epilogue.
    method WriteFreeTags(bp: nat, size: nat, ghost w: nat)
      requires 1 <= bp && bp + w <= mem.Length <= MAX_WORDS && size == 4 * w && w % 2 == 0 && w >= 4
      modifies mem
      ensures Wrote(old(mem[..]), mem[..], {bp - 1, bp + w - 2, bp + w - 1})
      ensures mem[bp - 1] == mem[bp + w - 2] == 4 * w && mem[bp + w - 1] == 1
    {
      mem[bp - 1] := size;
      TagParts(Block(w, true), mem[bp - 1]);
      mem[GetFooter(bp)] := size;
      mem[BlockNext(bp - 1)] := 0 + 1;
    }

    /** The lowest free block that fits, or 0 for NULL when none does. */
    method FindFirstFit(size: nat) returns (r: nat)
      requires Valid()
      ensures r == 0 ==> NoFit(B, size)
      ensures r != 0 ==> FirstFit(B, r - 1, size)
    {
      var ptr: nat := FIRST_BLOCK;
      WalkReads(ptr);
      var bsize := BlockSize(mem[ptr]);
      while bsize > 0
        invariant FIRST_BLOCK <= ptr < brk && bsize == BlockSize(mem[ptr])
        invariant ptr in B || ptr == brk - 1
        invariant forall b | b in B && B[b].free && b < ptr :: 4 * B[b].words < size
        decreases brk - ptr
      {
        WalkReads(ptr);
        if size <= bsize && BlockFree(mem[ptr]) == 0 {
          return ptr + 1;
        }
        WalkNext(ptr);
        ptr := BlockNext(ptr);
        WalkReads(ptr);
        bsize := BlockSize(mem[ptr]);
      }
      WalkReads(ptr);
      r := 0;
    }

    lemma WalkReads(p: nat)
      requires Valid() && (p in B || p == brk - 1 || p == FIRST_BLOCK)
      ensures p in B || p == brk - 1
      ensures p < brk && (p == brk - 1 <==> BlockSize(mem[p]) == 0)
      ensures p in B ==> BlockSize(mem[p]) == 4 * B[p].words && (BlockFree(mem[p]) == 0 <==> B[p].free)
      ensures p == brk - 1 ==> forall b | b in B :: b < p
      ensures forall b | b in B :: FIRST_BLOCK <= b
    {
      if p in B {
        NeighbourTags(mem[..], B, FIRST_BLOCK, brk - 1, p);
        TagParts(B[p], mem[p]);
      }
      forall b | b in B ensures FIRST_BLOCK <= b < brk - 1 {
        assert BlockFits(B, FIRST_BLOCK, brk - 1, b);
      }
    }

    lemma WalkNext(p: nat)
      requires Valid() && p in B
      ensures p < mem.Length && BlockNext(p) == End(B, p) > p && (End(B, p) in B || End(B, p) == brk - 1)
      ensures forall b | b in B && p < b :: End(B, p) <= b
    {
      NeighbourTags(mem[..], B, FIRST_BLOCK, brk - 1, p);
      forall b | b in B && p < b ensures End(B, p) <= b {
        assert Apart(B, p, b) && BlockFits(B, FIRST_BLOCK, brk - 1, b);
      }
    }

    /** Allocate `size` bytes (w words) in the free block whose payload is bp, splitting it when 16 bytes or more
        remain. */
    method Place(bp: nat, size: nat, ghost w: nat)
      requires Valid() && bp >= 1 && bp - 1 in B && B[bp - 1].free && w <= B[bp - 1].words
      requires size == 4 * w && w >= 4 && w % 2 == 0
      modifies this`B, mem
      ensures Valid()
      ensures B == Blocks.Place(old(B), bp - 1, w)
      ensures KeepsLive(old(mem[..]), mem[..], old(B))
    {
      ghost var h, a := mem[..], bp - 1;
      NeighbourTags(h, B, FIRST_BLOCK, brk - 1, a);
      assert BlockFits(B, FIRST_BLOCK, brk - 1, a);
      var bsize := BlockSize(mem[bp - 1]);
      if bsize - size >= 16 {
        WriteSplitTags(bp, size, bsize, w);
      } else {
        WriteWholeTags(bp, bsize, w);
      }
      PlaceIs(h, mem[..], B, brk - 1, a, w);
      PlaceKeeps(B, FIRST_BLOCK, brk - 1, a, w);
      B := Blocks.Place(B, a, w);
    }

    method WriteSplitTags(bp: nat, size: nat, bsize: nat, ghost w: nat)
      requires bp >= 1 && bp - 1 in B && B[bp - 1].words % 2 == 0 && bsize == 4 * B[bp - 1].words
      requires End(B, bp - 1) <= mem.Length <= MAX_WORDS
      requires size == 4 * w && w % 2 == 0 && 4 <= w && w + 4 <= B[bp - 1].words
      modifies mem
      ensures PlaceTagged(old(mem[..]), mem[..], B, bp - 1, w)
    {
      mem[bp - 1] := size + 1;
      TagParts(Block(w, false), mem[bp - 1]);
      mem[GetFooter(bp)] := size + 1;
      var next := NextBp(bp);
      mem[next - 1] := bsize - size;
      TagParts(Block(B[bp - 1].words - w, true), mem[next - 1]);
      mem[GetFooter(next)] := bsize - size;
    }

    method WriteWholeTags(bp: nat, bsize: nat, ghost w: nat)
      requires bp >= 1 && bp - 1 in B && B[bp - 1].words % 2 == 0 && bsize == 4 * B[bp - 1].words
      requires End(B, bp - 1) <= mem.Length <= MAX_WORDS
      requires 4 <= w <= B[bp - 1].words < w + 4
      modifies mem
      ensures PlaceTagged(old(mem[..]), mem[..], B, bp - 1, w)
    {
      mem[bp - 1] := bsize + 1;
      TagParts(Block(B[bp - 1].words, false), mem[bp - 1]);
      mem[GetFooter(bp)] := bsize + 1;
    }

    /** malloc. The request is rounded up and taken from the lowest block that fits, or from the heap top after
        growing it when none does; it fails, changing nothing, only when the words run out too. */
    method Malloc(size: nat) returns (r: nat)
      requires Valid() && size + 15 <= SIZE_MAX
      modifies this, mem
      ensures Valid()
      ensures r == 0 ==> brk == old(brk) && mem[..] == old(mem[..]) && B == old(B)
      ensures r == 0 <==>
        size == 0 || (GrowWords(CHUNKSIZE, size) > mem.Length - old(brk) && NoFit(old(B), GetMallocSize(size)))
      ensures size > 0 ==> (r == 0 <==> OutOfMemory(4096, 4 * (mem.Length - old(brk)), old(B), size))
      ensures r != 0 ==> GrewBy(4096, 4 * (brk - old(brk)), old(B), size)
      ensures r != 0 ==> Served(old(B), B, brk - 1, r, size) && KeepsLive(old(mem[..]), mem[..], old(B))
      ensures r != 0 ==> Allocated(old(B), old(brk) - 1, B, brk - 1, r - 1, size)
    {
      if size == 0 {
        return 0;
      }
      RequestFits(size);
      NoFitInBytes(mem.Length, B, brk, size);
      var asize := GetMallocSize(size);
      r := FindFirstFit(asize);
      if r != 0 {
        PlaceFound(r, size, asize);
        return;
      }
      r := MallocGrown(size, asize, RequestWords(size));
    }

    // The part of malloc that uses a block it found.
    method PlaceFound(bp: nat, size: nat, asize: nat)
      requires Valid() && 0 < size && size + 15 <= SIZE_MAX && asize == GetMallocSize(size)
      requires bp >= 1 && FirstFit(B, bp - 1, asize)
      modifies this`B, mem
      ensures Valid()
      ensures Served(old(B), B, brk - 1, bp, size) && KeepsLive(old(mem[..]), mem[..], old(B))
      ensures Allocated(old(B), old(brk) - 1, B, brk - 1, bp - 1, size)
    {
      RequestFits(size);
      PlaceServes(B, FIRST_BLOCK, brk - 1, bp - 1, size);
      Place(bp, asize, RequestWords(size));
    }

    // Growing the heap for a request, and what it means to the caller.
    method MallocGrown(size: nat, asize: nat, ghost w: nat) returns (r: nat)
      requires Valid() && 0 < size && size + 15 <= SIZE_MAX && asize == GetMallocSize(size) && w == RequestWords(size)
      modifies this, mem
      requires NoFit(B, asize)
      ensures Valid()
      ensures r == 0 <==> GrowWords(CHUNKSIZE, size) > mem.Length - old(brk)
      ensures r == 0 ==> brk == old(brk) && mem[..] == old(mem[..]) && B == old(B)
      ensures r != 0 ==>
        && brk == old(brk) + GrowWords(CHUNKSIZE, size)
        && Served(old(B), B, brk - 1, r, size) && KeepsLive(old(mem[..]), mem[..], old(B))
        && Allocated(old(B), old(brk) - 1, B, brk - 1, r - 1, size)
    {
      ghost var B0, hi := B, brk - 1;
      GrowServes(size);
      r := MallocFresh(size, asize, w);
      if r != 0 {
        GrownIs(B0, B, hi, GrowWords(CHUNKSIZE, size), r - 1, size, brk - 1, r);
      }
    }

    // The part of malloc that extends the heap.
    method MallocFresh(size: nat, asize: nat, ghost w: nat) returns (r: nat)
      requires Valid() && 0 < size && size + 15 <= SIZE_MAX && asize == GetMallocSize(size) && w == RequestWords(size)
      modifies this, mem
      ensures Valid()
      ensures r == 0 <==> GrowWords(CHUNKSIZE, size) > mem.Length - old(brk)
      ensures r == 0 ==> brk == old(brk) && mem[..] == old(mem[..]) && B == old(B)
      ensures r != 0 ==>
        && brk == old(brk) + GrowWords(CHUNKSIZE, size) && KeepsLive(old(mem[..]), mem[..], old(B))
        && GrownAndPlaced(old(B), B, old(brk) - 1, GrowWords(CHUNKSIZE, size), r - 1, w)
    {
      var esize := if asize > CHUNKSIZE then asize else CHUNKSIZE;
      ghost var h, B0, hi, g := mem[..], B, brk - 1, GrowWords(CHUNKSIZE, size);
      GrowFacts(CHUNKSIZE, size);
      GrowServes(size);
      var words := esize / 4;
      assert words == g;
      r := ExtendHeap(words, g);
      if r != 0 {
        ghost var h1, B1 := mem[..], B;
        Place(r, asize, w);
        ExtendedKeepsLive(h, h1, mem[..], B0, B1, hi, g);
      }
    }

    // Before the heap grows: the allocation to come serves the request.
    lemma GrowServes(size: nat)
      requires Valid() && 0 < size && size + 15 <= SIZE_MAX
      ensures
        GrownServing(B, brk - 1, GrowWords(CHUNKSIZE, size), ExtendedAt(B, brk - 1, GrowWords(CHUNKSIZE, size)), size)
    {
      GrowFacts(CHUNKSIZE, size);
      TopOdd(B, FIRST_BLOCK, brk - 1);
      GrownServes(B, brk - 1, GrowWords(CHUNKSIZE, size), ExtendedAt(B, brk - 1, GrowWords(CHUNKSIZE, size)), size);
    }

    /** free. The block joins every free neighbour. */
    method Free(ptr: nat)
      requires Valid() && (ptr == 0 || ptr - 1 in Live(B))
      modifies this`B, mem
      ensures Valid()
      ensures ptr == 0 ==> mem[..] == old(mem[..]) && B == old(B)
      ensures ptr != 0 ==>
        && Released(old(B), B, ptr - 1)
        && KeepsLive(old(mem[..]), mem[..], Mark(old(B), ptr - 1, true))
    {
      if ptr == 0 {
        return;
      }
      ghost var h, B0, a := mem[..], B, ptr - 1;
      assert BlockFits(B, FIRST_BLOCK, brk - 1, a) && TaggedAt(h, B, a);
      BlockMarkFree(mem, ptr - 1, B);
      ghost var h1, B1 := mem[..], Mark(B, a, true);
      FreeIs(h, h1, B, brk - 1, a);
      B := B1;
      var _ := Coalesce(ptr);
      CoalesceRepairs(B1, FIRST_BLOCK, brk - 1, a);
      KeepsLiveTrans(h, h1, mem[..], B1, B1);
      ReleasedIs(B0, brk - 1, a);
    }

    // malloc and free, by the block they allocate and release.
    method MallocAt(size: nat, ghost hi: nat) returns (r: nat, ghost a: nat, ghost hi': nat)
      requires Valid() && size + 15 <= SIZE_MAX && brk == hi + 1
      modifies this, mem
      ensures Valid() && brk == hi' + 1
      ensures r == 0 ==> hi' == hi && mem[..] == old(mem[..]) && B == old(B)
      ensures r != 0 ==>
        && size > 0 && r == a + 1
        && Served(old(B), B, hi', r, size) && KeepsLive(old(mem[..]), mem[..], old(B))
        && Allocated(old(B), hi, B, hi', a, size)
    {
      r := Malloc(size);
      a, hi' := if r == 0 then 0 else r - 1, brk - 1;
    }

    method FreeAt(ptr: nat, ghost a: nat)
      requires Valid() && ptr == a + 1 && a in Live(B)
      modifies this`B, mem
      ensures Valid() && Released(old(B), B, a) && KeepsLive(old(mem[..]), mem[..], Mark(old(B), a, true))
    {
      Free(ptr);
    }

    /**
     * malloc, then free of what it gave. The blocks are the same as before, unless the heap grew; then they are those
     * of the grown heap. No live word changed.
     */
    method MallocFree(size: nat)
      requires Valid() && size + 15 <= SIZE_MAX
      modifies this, mem
      ensures Valid() && KeepsLive(old(mem[..]), mem[..], old(B))
      ensures Restored(old(B), old(brk) - 1, B, brk - 1, size)
    {
      ghost var h, B0, hi: nat := mem[..], B, brk - 1;
      TopOdd(B, FIRST_BLOCK, hi);
      ghost var a, hi';
      var r;
      r, a, hi' := MallocAt(size, hi);
      if r == 0 {
        KeepsLiveRefl(h, B0, FIRST_BLOCK, hi);
      } else {
        ghost var h1, B1 := mem[..], B;
        FreeAt(r, a);
        BothKeepLive(h, h1, mem[..], B0, B1, hi', r, a, size);
        FreedAfter(B0, hi, B1, hi', B, a, size);
      }
    }

    /** realloc: a new block, a copy of the old contents, and the old block freed. When memory runs out the old
        block stays as it is. */
    method Realloc(oldptr: nat, size: nat) returns (r: nat)
      requires Valid() && size + 15 <= SIZE_MAX && (oldptr == 0 || oldptr - 1 in Live(B))
      modifies this, mem
      ensures Valid()
      ensures size == 0 ==> r == 0 && brk == old(brk) && (oldptr != 0 ==> Released(old(B), B, oldptr - 1))
      ensures size == 0 && oldptr == 0 ==> mem[..] == old(mem[..]) && B == old(B)
      ensures size == 0 && oldptr != 0 ==> KeepsLive(old(mem[..]), mem[..], Mark(old(B), oldptr - 1, true))
      ensures size != 0 && oldptr == 0 && r != 0 ==>
        Served(old(B), B, brk - 1, r, size) && KeepsLive(old(mem[..]), mem[..], old(B))
      ensures size != 0 ==>
        (r == 0 <==> GrowWords(CHUNKSIZE, size) > mem.Length - old(brk) && NoFit(old(B), GetMallocSize(size)))
      ensures size != 0 && r == 0 ==> brk == old(brk) && mem[..] == old(mem[..]) && B == old(B)
      ensures size != 0 && oldptr != 0 && r != 0 ==>
        && oldptr - 1 in old(B) && Moved(old(B), B, brk - 1, oldptr - 1, r - 1, size)
        && KeepsContents(old(mem[..]), mem[..], oldptr, r, Preserved(old(B), oldptr - 1, size))
        && KeepsOthers(old(mem[..]), mem[..], old(B), oldptr - 1)
      ensures size != 0 && oldptr != 0 && r != 0 ==>
        SameStart(old(mem[..]), mem[..], oldptr, r, size, 4 * Live(old(B))[oldptr - 1])
      ensures size != 0 ==> (r == 0 <==> OutOfMemory(4096, 4 * (mem.Length - old(brk)), old(B), size))
    {
      if size == 0 {
        Free(oldptr);
        return 0;
      }
      if oldptr == 0 {
        r := Malloc(size);
        return;
      }
      ghost var h, B0 := mem[..], B;
      assert BlockFits(B, FIRST_BLOCK, brk - 1, oldptr - 1);
      r := Malloc(size);
      if r != 0 {
        MoveTo(oldptr, r, size, h, B0);
        StartIsSame(h, mem[..], B0, oldptr, r, size);
      }
    }

    // The branch of realloc that moves the block, once malloc has succeeded; h and B0 are from before malloc.
    method MoveTo(oldptr: nat, newptr: nat, size: nat, ghost h: seq<Word>, ghost B0: Layout)
      requires Valid() && oldptr >= 1 && newptr >= 1 && oldptr - 1 in Live(B0)
      requires Served(B0, B, brk - 1, newptr, size) && KeepsLive(h, mem[..], B0)
      modifies this`B, mem
      ensures Valid()
      ensures oldptr - 1 in B0 && Moved(B0, B, brk - 1, oldptr - 1, newptr - 1, size)
      ensures KeepsContents(h, mem[..], oldptr, newptr, Preserved(B0, oldptr - 1, size))
      ensures KeepsOthers(h, mem[..], B0, oldptr - 1)
    {
      ghost var h1, B1 := mem[..], B;
      StillLive(B0, B1, oldptr - 1, newptr - 1);
      ghost var n := CopyContents(oldptr, newptr, size);
      ghost var h2 := mem[..];
      Free(oldptr);
      MoveDone(h, h1, h2, mem[..], B0, B1, B, brk - 1, oldptr - 1, newptr - 1, n, size);
    }

    // As many bytes as are asked for, at most the size of the old block.
    method BytesToCopy(oldptr: nat, size: nat) returns (n: nat)
      requires Valid() && oldptr >= 1 && oldptr - 1 in B
      ensures B[oldptr - 1].words >= 4 && n == if size < 4 * B[oldptr - 1].words then size else 4 * B[oldptr - 1].words
    {
      NeighbourTags(mem[..], B, FIRST_BLOCK, brk - 1, oldptr - 1);
      n := BlockSize(mem[oldptr - 1]);
      if size < n {
        n := size;
      }
    }

    method CopyContents(oldptr: nat, newptr: nat, size: nat) returns (ghost n: nat)
      requires Valid() && oldptr >= 1 && newptr >= 1 && oldptr != newptr
      requires oldptr - 1 in Live(B) && newptr - 1 in Live(B) && size + 8 <= 4 * B[newptr - 1].words
      modifies mem
      ensures Valid()
      ensures oldptr - 1 in B && newptr - 1 in B && B[oldptr - 1].words >= 4
      ensures n == if size < 4 * B[oldptr - 1].words then size else 4 * B[oldptr - 1].words
      ensures newptr + WordsOf(n) <= End(B, newptr - 1) - 1
      ensures KeepsContents(old(mem[..]), mem[..], oldptr, newptr, n)
      ensures KeepsOthers(old(mem[..]), mem[..], B, newptr - 1)
    {
      ghost var h := mem[..];
      var oldsize := BytesToCopy(oldptr, size);
      RoomToCopy(B, brk - 1, oldptr - 1, newptr - 1, size, oldsize);
      Memcpy(mem, newptr, oldptr, oldsize);
      CopyIs(h, mem[..], B, brk - 1, newptr - 1, oldsize);
      n := oldsize;
    }

    /** Whenever the caller owns nothing, in whatever order blocks were freed, the heap is one free block of all
        its bytes but 16. */
    lemma EmptyHeapIsOneBlock()
      requires Valid() && Live(B) == map[] && brk > 4
      ensures B == map[FIRST_BLOCK := Block(brk - 4, true)]
      ensures 4 * B[FIRST_BLOCK].words == 4 * brk - 16
    {
      AllFreeIsOne(B, FIRST_BLOCK, brk - 1);
    }

    /** Header and footer of a block hold its size in bytes, plus one when it is allocated. */
    lemma HeaderWords(b: nat)
      requires Valid() && b in B
      ensures b + B[b].words <= mem.Length && B[b].words >= 4
      ensures mem[b] == mem[b + B[b].words - 1] == 4 * B[b].words + if B[b].free then 0 else 1
    {
      assert BlockFits(B, FIRST_BLOCK, brk - 1, b) && TaggedAt(mem[..], B, b);
    }

    /** Conservation: the blocks met on a walk from the first are all the blocks there are, each once, and together they
        have all the bytes of the heap but 16. */
    lemma BytesConserved()
      requires Valid()
      ensures FIRST_BLOCK in B || brk - 1 == FIRST_BLOCK
      ensures var s := Walk(B, FIRST_BLOCK, brk - 1, FIRST_BLOCK);
        Ascending(s) && (forall x {:trigger x in s} :: x in s <==> x in B) && 4 * SumWords(B, s) == 4 * brk - 16
    {
      WalkVisits(B, FIRST_BLOCK, brk - 1, FIRST_BLOCK);
      forall x | x in B ensures x >= FIRST_BLOCK {
        assert BlockFits(B, FIRST_BLOCK, brk - 1, x);
      }
    }

    // The region mem_sbrk serves, before mm_init.
    constructor (capacity: nat)
      requires capacity <= MAX_WORDS
      ensures fresh(mem) && mem.Length == capacity && brk == 0
    {
      mem := new Word[capacity];
      brk := 0;
      B := map[];
    }

    /** mm_init: the sentinels, then one chunk of free heap; -1 when the region is too small. */
    method MmInit() returns (r: int)
      requires brk == 0 && mem.Length <= MAX_WORDS
      modifies this, mem
      ensures r == 0 || r == -1
      ensures r == 0 <==> mem.Length >= 1028
      ensures r == 0 ==> Valid() && brk == 1028 && B == map[3 := Block(1024, true)]
    {
      var p: int;
      p, brk := MemSbrk(mem.Length, brk, 4 * 4);
      if p == -1 {
        return -1;
      }
      mem[0] := 0;
      mem[1] := 8 + 1;
      mem[2] := 8 + 1;
      mem[3] := 0 + 1;
      B := map[];
      var bp := ExtendHeap(CHUNKSIZE / 4, CHUNKSIZE / 4);
      r := if bp == 0 then -1 else 0;
      ghost var C: Layout := map[][FIRST_BLOCK := Block(CHUNKSIZE / 4, true)];
      assert !HasLeft(C, FIRST_BLOCK) && !RightFree(C, FIRST_BLOCK);
    }
  }
}