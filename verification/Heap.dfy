/** What the three allocators share: asking for words, and writing boundary tags. */
module Heap {
  import opened Words
  import opened Blocks
  import opened Links
  import opened Tags

  // block + block_size(block)/WSIZE - 1
  function GetFooterEl(mem: array<Word>, block: nat): int
    requires block < mem.Length
    reads mem
  {
    block + SizeInWords(mem[block]) - 1
  }

  // Grow a heap that ends at brk by `size` bytes: the old break, or -1 and no change. The new words are arbitrary.
  method MemSbrk(limit: nat, brk: nat, size: nat) returns (p: int, brk': nat)
    requires brk <= limit && size % 4 == 0
    ensures brk' <= limit
    ensures if size / 4 <= limit - brk then p == brk && brk' == brk + size / 4 else p == -1 && brk' == brk
  {
    if brk + size / 4 > limit {
      return -1, brk;
    }
    return brk, brk + size / 4;
  }

  // block_mark(block, 0)
  method BlockMarkFree(mem: array<Word>, block: nat, ghost B: Layout)
    requires block in B && B[block].words >= 4 && B[block].words % 2 == 0 && TaggedAt(mem[..], B, block)
    modifies mem
    ensures Wrote(old(mem[..]), mem[..], {block, End(B, block) - 1})
    ensures TaggedAt(mem[..], Mark(B, block, true), block)
  {
    TagParts(B[block], mem[block]);
    var size := BlockSize(mem[block]);
    mem[block] := size;
    TagParts(Block(B[block].words, true), mem[block]);
    mem[block + size / 4 - 1] := size;
  }

  // Header and footer of a free block of w words.
  method WriteFreeTags(mem: array<Word>, block: nat, size: nat, ghost w: nat)
    requires block + w <= mem.Length <= MAX_WORDS && size == 4 * w && w % 2 == 0 && w >= 4
    modifies mem
    ensures Wrote(old(mem[..]), mem[..], {block, block + w - 1})
    ensures mem[block] == mem[block + w - 1] == 4 * w
  {
    mem[block] := size;
    TagParts(Block(w, true), mem[block]);
    mem[GetFooterEl(mem, block)] := size;
  }

  // The two tag writes that allocate a whole block.
  method MarkWhole(mem: array<Word>, block: nat, bsize: nat, ghost B: Layout)
    requires block in B && B[block].words >= 4 && B[block].words % 2 == 0 && bsize == 4 * B[block].words
    requires End(B, block) <= mem.Length <= MAX_WORDS
    modifies mem
    ensures Wrote(old(mem[..]), mem[..], {block, End(B, block) - 1})
    ensures TaggedAt(mem[..], Mark(B, block, false), block)
  {
    mem[block] := bsize + 1;
    TagParts(Block(B[block].words, false), mem[block]);
    mem[GetFooterEl(mem, block)] := bsize + 1;
  }

  // The four tag writes of a split.
  method WriteSplitTags(mem: array<Word>, block: nat, size: nat, bsize: nat, ghost w: nat, ghost B: Layout)
    requires block in B && B[block].words % 2 == 0 && bsize == 4 * B[block].words
    requires End(B, block) <= mem.Length <= MAX_WORDS
    requires size == 4 * w && w % 2 == 0 && 4 <= w && w + 4 <= B[block].words
    modifies mem
    ensures SplitTagged(old(mem[..]), mem[..], B, block, w)
    ensures SizeInWords(mem[block]) == w
  {
    mem[block] := size + 1;
    TagParts(Block(w, false), mem[block]);
    mem[GetFooterEl(mem, block)] := size + 1;
    var temp := GetFooterEl(mem, block) + 2;
    mem[temp - 1] := bsize - size;
    TagParts(Block(B[block].words - w, true), mem[temp - 1]);
    mem[GetFooterEl(mem, temp - 1)] := bsize - size;
  }
}
