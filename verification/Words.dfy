/** The 32-bit words of the allocator heap and the boundary tags packed into them. */
module Words {

  const WORD_LIMIT := 0x1_0000_0000

  // One uint32_t of the heap.
  type Word = x: int | 0 <= x < WORD_LIMIT

  // A heap of at most this many words stays under 2^31 bytes.
  const MAX_WORDS := 0x2000_0000

  // w & ~0x7: the block size in bytes held by a tag.
  function BlockSize(w: Word): int {
    w / 8 * 8
  }

  // w & 0x1. Like block_free in the source it is 1 when the block is ALLOCATED.
  function BlockFree(w: Word): int {
    w % 2
  }

  // The block size in words.
  function SizeInWords(w: Word): int {
    BlockSize(w) / 4
  }

  const SIZE_MAX: nat := 0xFFFF_FFFF_FFFF_FFFF

  // x reduced to the 64 bits of a size_t.
  function ToSize(x: int): (r: nat)
    ensures r <= SIZE_MAX
  {
    x % 0x1_0000_0000_0000_0000
  }

  // n rounded up to a multiple of eight.
  function RoundUp8(n: nat): (r: nat)
    ensures r % 8 == 0 && n <= r < n + 8
  {
    (n + 7) / 8 * 8
  }

  // The block size for a request of `size` bytes, computed in size_t.
  function GetMallocSize(size: nat): (r: nat)
    requires size <= SIZE_MAX
  {
    if size <= 8 then 16 else ToSize(8 * (ToSize(size + 8 + 7) / 8))
  }

  /** The rounded size leaves room for the request and the two tags exactly when size + 15 fits a size_t. */
  lemma GetMallocSizeExact(size: nat)
    requires 0 < size <= SIZE_MAX
    ensures GetMallocSize(size) % 8 == 0
    ensures (GetMallocSize(size) >= 16 && size + 8 <= GetMallocSize(size) <= size + 15) <==> size + 15 <= SIZE_MAX
  {
    if size + 15 <= SIZE_MAX {
      assert ToSize(size + 15) == size + 15;
    } else {
      assert ToSize(size + 15) == size + 15 - 0x1_0000_0000_0000_0000;
    }
  }

  /** The largest request is rounded to a size that cannot even hold its own tags. */
  lemma GetMallocSizeWraps()
    ensures SIZE_MAX == 0xFFFF_FFFF_FFFF_FFFF && GetMallocSize(SIZE_MAX) == 8
  {
  }

  // (int) of a size_t.
  function ToInt(x: nat): int {
    var y := x % 0x1_0000_0000;
    if y < 0x8000_0000 then y else y - 0x1_0000_0000
  }

  // The test by which realloc decides to shrink in place: (int)(oldsize - newsize) >= 2*DSIZE.
  predicate ShrinkTest(oldsize: nat, newsize: nat) {
    ToInt(ToSize(oldsize - newsize)) >= 16
  }

  /** The test means newsize + 16 <= oldsize, except when a growth of more than 2^31 bytes truncates to one that
      looks like a shrink. */
  lemma ShrinkTestExact(oldsize: nat, newsize: nat)
    requires oldsize < 0x8000_0000 && newsize <= 0xFFFF_FFFF_FFFF_FFFF
    ensures (ShrinkTest(oldsize, newsize) <==> newsize + 16 <= oldsize) <==>
            (newsize <= oldsize || !(0x8000_0000 < (newsize - oldsize) % 0x1_0000_0000 <= 0xFFFF_FFF0))
  {
    var d := oldsize - newsize;
    if d >= 0 {
      assert ToSize(d) == d;
    } else {
      assert ToSize(d) == d + 0x1_0000_0000_0000_0000;
      NegativeMod(d);
    }
  }

  lemma NegativeMod(d: int)
    requires d < 0
    ensures (d + 0x1_0000_0000_0000_0000) % 0x1_0000_0000
      == if (-d) % 0x1_0000_0000 == 0 then 0 else 0x1_0000_0000 - (-d) % 0x1_0000_0000
  {
    var q, r := (-d) / 0x1_0000_0000, (-d) % 0x1_0000_0000;
    assert -d == q * 0x1_0000_0000 + r;
    if r == 0 {
      assert d + 0x1_0000_0000_0000_0000 == (0x1_0000_0000 - q) * 0x1_0000_0000;
    } else {
      assert d + 0x1_0000_0000_0000_0000 == (0x1_0000_0000 - q - 1) * 0x1_0000_0000 + (0x1_0000_0000 - r);
    }
  }

  /** A 16-byte block asked to hold 4 GiB takes the shrink branch. */
  lemma ShrinkTestFails()
    ensures ShrinkTest(16, 0x1_0000_0000)
  {
  }
}
