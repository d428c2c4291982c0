/**
 * Whole runs of the segregated allocator against an abstract machine: blocks and free lists without words, and an ideal
 * store that never moves or loses anything.
 *
 * A script allocates, frees, shrinks and writes named objects. The ideal store maps each live name to its contents.
 */
module Runs {
  import opened Words
  import opened Blocks
  import opened Tags
  import opened Requests
  import opened Bytes
  import opened SegLists
  import S = Seglist

  datatype Op =
    | Alloc(id: nat, size: nat)
    | Release(id: nat)
    | Resize(id: nat, size: nat)
    | Assign(id: nat, k: nat, v: Word)

  type Ideal = map<nat, seq<Word>>

  // Where a name lives, and how many bytes its owner asked for last.
  datatype Handle = Handle(ptr: nat, size: nat)

  type Handles = map<nat, Handle>

  // The abstract machine: the blocks, the order of the free lists, the break, the names, and their contents.
  datatype Abstract = Abstract(B: Layout, L: FreeLists, brk: nat, t: Handles, s: Ideal)

  function Put(c: seq<Word>, k: nat, v: Word): seq<Word>
    requires k < |c|
  {
    c[..k] + [v] + c[k + 1..]
  }

  // A request that is made and served, in a heap of at most `cap` words.
  ghost predicate Succeeds(cap: nat, x: Abstract, id: nat, size: nat) {
    id !in x.t && 0 < size && size + 15 <= SIZE_MAX && !NoRoom(S.CHUNKSIZE, cap, x.B, x.brk, size)
  }

  // realloc does not have to move the block. Other resizes are not made.
  ghost predicate InPlace(x: Abstract, id: nat, size: nat) {
    && id in x.t && x.t[id].ptr >= 1 && x.t[id].ptr - 1 in x.B && size + 15 <= SIZE_MAX
    && (size == 0 || GetMallocSize(size) == 4 * x.B[x.t[id].ptr - 1].words
        || GetMallocSize(size) + 16 <= 4 * x.B[x.t[id].ptr - 1].words)
  }

  ghost predicate Drops(x: Abstract, id: nat, y: Abstract) {
    && id in x.t && x.t[id].ptr >= 1 && Released(x.B, x.L, y.B, y.L, x.brk, x.t[id].ptr - 1)
    && y.brk == x.brk && y.t == x.t - {id}
  }

  /** What one operation does to blocks, lists and names. */
  ghost predicate HeapStep(cap: nat, x: Abstract, op: Op, y: Abstract) {
    match op
    case Alloc(id, size) =>
      if !Succeeds(cap, x, id, size) then y == x
      else
        && id in y.t && y.t == x.t[id := Handle(y.t[id].ptr, size)]
        && S.Allocated(x.B, x.L, x.brk, y.B, y.L, y.brk, y.t[id].ptr, size)
    case Release(id) => if id in x.t then Drops(x, id, y) else y == x
    case Resize(id, size) =>
      if !InPlace(x, id, size) then y == x
      else if size == 0 then Drops(x, id, y)
      else
        && y.brk == x.brk && y.t == x.t[id := Handle(x.t[id].ptr, size)]
        && Trimmed(x.B, x.L, y.B, y.L, x.brk, x.t[id].ptr - 1, RequestWords(size))
    case Assign(_, _, _) => y == x.(s := y.s)
  }

  // c and d agree as far as both go.
  ghost predicate Agree(c: seq<Word>, d: seq<Word>) {
    forall k {:trigger c[k]} {:trigger d[k]} | 0 <= k < |c| && k < |d| :: c[k] == d[k]
  }

  /** What it does to the ideal store. Fresh contents are arbitrary; a resized object keeps what it has room for. */
  ghost predicate StoreStep(cap: nat, x: Abstract, op: Op, y: Abstract) {
    match op
    case Alloc(id, size) =>
      if Succeeds(cap, x, id, size) then id in y.s && |y.s[id]| == WordsOf(size) && y.s == x.s[id := y.s[id]]
      else y.s == x.s
    case Release(id) => y.s == x.s - {id}
    case Resize(id, size) =>
      if !InPlace(x, id, size) || id !in x.s then y.s == x.s
      else if size == 0 then y.s == x.s - {id}
      else id in y.s && |y.s[id]| == WordsOf(size) && Agree(x.s[id], y.s[id]) && y.s == x.s[id := y.s[id]]
    case Assign(id, k, v) =>
      y.s == if id in x.s && k < |x.s[id]| then x.s[id := Put(x.s[id], k, v)] else x.s
  }

  // The payload at t.ptr is live, has room for the contents c, and holds them.
  ghost predicate Holds(h: seq<Word>, B: Layout, t: Handle, c: seq<Word>) {
    && t.ptr >= 1 && t.ptr - 1 in B && !B[t.ptr - 1].free
    && |c| == WordsOf(t.size) && |c| + 2 <= B[t.ptr - 1].words && 4 * B[t.ptr - 1].words <= t.size + 23
    && End(B, t.ptr - 1) <= |h|
    && forall i {:trigger c[i]} | 0 <= i < |c| :: h[t.ptr + i] == c[i]
  }

  /** The heap holds the contents of every live name, in blocks of their own. */
  ghost predicate Represents(h: seq<Word>, B: Layout, t: Handles, s: Ideal) {
    && t.Keys == s.Keys
    && (forall id {:trigger s[id]} | id in s :: Holds(h, B, t[id], s[id]))
    && forall i, j {:trigger t[i], t[j]} | i in t && j in t && i != j :: t[i].ptr != t[j].ptr
  }

  lemma HoldsStill(h: seq<Word>, h': seq<Word>, B: Layout, B': Layout, t: Handle, c: seq<Word>)
    requires Holds(h, B, t, c) && KeepsRange(h, h', t.ptr - 1, End(B, t.ptr - 1))
    requires t.ptr - 1 in Live(B') && Live(B')[t.ptr - 1] == Live(B)[t.ptr - 1]
    ensures Holds(h', B', t, c)
  {
  }

  lemma AllocRepresents(h: seq<Word>, h': seq<Word>, B: Layout, B': Layout, hi: nat, t: Handles, s: Ideal,
                        id: nat, size: nat, r: nat)
    requires Represents(h, B, t, s) && id !in s && KeepsLive(h, h', B) && Served(B, B', hi, r, size)
    requires hi <= |h'|
    ensures r + WordsOf(size) <= |h'|
    ensures Represents(h', B', t[id := Handle(r, size)], s[id := h'[r..r + WordsOf(size)]])
  {
    var t', s' := t[id := Handle(r, size)], s[id := h'[r..r + WordsOf(size)]];
    forall i | i in s' ensures Holds(h', B', t'[i], s'[i]) && (i != id ==> t'[i].ptr != r) {
      if i != id {
        assert Holds(h, B, t[i], s[i]);
        assert t[i].ptr - 1 in Live(B);
        assert KeepsRange(h, h', t[i].ptr - 1, End(B, t[i].ptr - 1));
        HoldsStill(h, h', B, B', t[i], s[i]);
      }
    }
  }

  lemma ReleaseRepresents(h: seq<Word>, h': seq<Word>, B: Layout, B': Layout, t: Handles, s: Ideal, id: nat, a: nat)
    requires Represents(h, B, t, s) && id in s && t[id].ptr == a + 1 && a in B
    requires Live(B') == Live(B) - {a} && KeepsLive(h, h', Mark(B, a, true))
    ensures Represents(h', B', t - {id}, s - {id})
  {
    forall i | i in s - {id} ensures Holds(h', B', (t - {id})[i], (s - {id})[i]) {
      assert Holds(h, B, t[i], s[i]) && t[i].ptr != t[id].ptr;
      var b := t[i].ptr - 1;
      assert b in Live(B) && b in Live(B');
      assert KeepsRange(h, h', b, End(Mark(B, a, true), b));
      HoldsStill(h, h', B, B', t[i], s[i]);
    }
  }

  lemma ResizeRepresents(h: seq<Word>, h': seq<Word>, B: Layout, B': Layout, t: Handles, s: Ideal, id: nat,
                         a: nat, size: nat, w: nat, c: seq<Word>)
    requires Represents(h, B, t, s) && id in s && t[id].ptr == a + 1 && WordsOf(size) + 2 <= w && 4 * w <= size + 23
    requires Live(B') == Live(B)[a := w - 2] && a in B' && End(B', a) <= |h'|
    requires KeepsRange(h, h', a + 1, a + w - 1) && KeepsOthers(h, h', B, a)
    requires a + 1 + WordsOf(size) <= |h'| && c == h'[a + 1..a + 1 + WordsOf(size)]
    ensures Represents(h', B', t[id := Handle(a + 1, size)], s[id := c]) && Agree(s[id], c)
  {
    var p := t[id].ptr;
    assert Holds(h, B, t[id], s[id]);
    assert a in Live(B') && Live(B')[a] == w - 2;
    var t', s' := t[id := Handle(p, size)], s[id := c];
    forall i | i in s' ensures Holds(h', B', t'[i], s'[i]) {
      if i != id {
        assert Holds(h, B, t[i], s[i]) && t[i].ptr != p;
        assert t[i].ptr - 1 in Live(B);
        assert KeepsRange(h, h', t[i].ptr - 1, End(B, t[i].ptr - 1));
        HoldsStill(h, h', B, B', t[i], s[i]);
      }
    }
    assert t'.Keys == s'.Keys;
    forall i, j | i in t' && j in t' && i != j ensures t'[i].ptr != t'[j].ptr {
      assert t[i].ptr != t[j].ptr;
    }
  }

  lemma AssignRepresents(h: seq<Word>, h': seq<Word>, B: Layout, t: Handles, s: Ideal, id: nat, k: nat, v: Word)
    requires Represents(h, B, t, s) && id in s && k < |s[id]| && t[id].ptr >= 1 && t[id].ptr + k < |h|
    requires h' == h[t[id].ptr + k := v] && KeepsOthers(h, h', B, t[id].ptr - 1)
    ensures Represents(h', B, t, s[id := Put(s[id], k, v)])
  {
    var s' := s[id := Put(s[id], k, v)];
    forall i | i in s' ensures Holds(h', B, t[i], s'[i]) {
      assert Holds(h, B, t[i], s[i]);
      if i != id {
        assert t[i].ptr != t[id].ptr;
        assert KeepsRange(h, h', t[i].ptr - 1, End(B, t[i].ptr - 1));
        HoldsStill(h, h', B, B, t[i], s[i]);
      }
    }
  }

  // One step of the abstract machine.
  ghost predicate Step(cap: nat, x: Abstract, op: Op, y: Abstract) {
    HeapStep(cap, x, op, y) && StoreStep(cap, x, op, y)
  }

  // The abstract state of allocator a with these names and contents.
  ghost function AbstractOf(a: S.Allocator, t: Handles, s: Ideal): Abstract
    reads a
  {
    Abstract(a.B, a.L, a.brk, t, s)
  }

  // The heap is valid and holds what x says.
  ghost predicate Means(a: S.Allocator, t: Handles, s: Ideal)
    reads a, a.mem
  {
    a.Valid() && Represents(a.mem[..], a.B, t, s)
  }

  /**
   * In a heap that means t and s, every name owns an aligned live block of its own with room for the bytes its owner
   * asked for last, and with at most 23 bytes more, tags included.
   */
  lemma FitsRequest(a: S.Allocator, t: Handles, s: Ideal, id: nat)
    requires Means(a, t, s) && id in t
    ensures t[id].ptr >= 1 && t[id].ptr - 1 in Live(a.B) && 4 * t[id].ptr % 8 == 0
    ensures t[id].size <= 4 * Live(a.B)[t[id].ptr - 1] && 4 * a.B[t[id].ptr - 1].words <= t[id].size + 23
    ensures forall j {:trigger t[j]} | j in t && j != id :: t[j].ptr != t[id].ptr
  {
    assert Holds(a.mem[..], a.B, t[id], s[id]);
    LiveRegions(a.B, FIRST_BLOCK, a.brk, t[id].ptr - 1, t[id].ptr - 1);
  }

  /** One operation on the real heap is one step of the abstract machine. */
  method Perform(a: S.Allocator, op: Op, t: Handles, ghost s: Ideal) returns (t': Handles, ghost s': Ideal)
    requires Means(a, t, s)
    modifies a, a.mem
    ensures Means(a, t', s')
    ensures Step(a.mem.Length, old(AbstractOf(a, t, s)), op, AbstractOf(a, t', s'))
  {
    match op {
      case Alloc(id, size) =>
        t', s' := PerformAlloc(a, id, size, t, s);
      case Release(id) =>
        t', s' := PerformRelease(a, id, t, s);
      case Resize(id, size) =>
        t', s' := PerformResize(a, id, size, t, s);
      case Assign(id, k, v) =>
        s' := PerformAssign(a, id, k, v, t, s);
        t' := t;
    }
  }

  method PerformAlloc(a: S.Allocator, id: nat, size: nat, t: Handles, ghost s: Ideal)
      returns (t': Handles, ghost s': Ideal)
    requires Means(a, t, s)
    modifies a, a.mem
    ensures Means(a, t', s')
    ensures Step(a.mem.Length, old(AbstractOf(a, t, s)), Alloc(id, size), AbstractOf(a, t', s'))
  {
    if id in t || size + 15 > SIZE_MAX {
      return t, s;
    }
    ghost var h, x := a.mem[..], AbstractOf(a, t, s);
    var r := a.Malloc(size);
    if r == 0 {
      t', s' := t, s;
    } else {
      t' := t[id := Handle(r, size)];
      AllocRepresents(h, a.mem[..], x.B, a.B, a.brk, t, s, id, size, r);
      s' := s[id := a.mem[..][r..r + WordsOf(size)]];
      AllocStep(a.mem.Length, x, id, size, r, s'[id], AbstractOf(a, t', s'));
    }
  }

  // free, by what it does to a live block.
  method FreeLive(a: S.Allocator, ptr: nat, ghost block: nat)
    requires a.Valid() && ptr == block + 1 && block in Live(a.B)
    modifies a, a.mem
    ensures a.Valid() && a.brk == old(a.brk)
    ensures Released(old(a.B), old(a.L), a.B, a.L, a.brk, block) && Live(a.B) == Live(old(a.B)) - {block}
    ensures KeepsLive(old(a.mem[..]), a.mem[..], Mark(old(a.B), block, true))
  {
    a.Free(ptr);
  }

  method PerformRelease(a: S.Allocator, id: nat, t: Handles, ghost s: Ideal) returns (t': Handles, ghost s': Ideal)
    requires Means(a, t, s)
    modifies a, a.mem
    ensures Means(a, t', s')
    ensures HeapStep(a.mem.Length, old(AbstractOf(a, t, s)), Release(id), AbstractOf(a, t', s')) && s' == s - {id}
  {
    t', s' := t, s;
    if id in t {
      ghost var h, x := a.mem[..], AbstractOf(a, t, s);
      assert Holds(h, x.B, t[id], s[id]);
      ghost var block: nat := t[id].ptr - 1;
      FreeLive(a, t[id].ptr, block);
      t', s' := t - {id}, s - {id};
      ReleaseStep(a.mem.Length, x, id, block, AbstractOf(a, t', s'));
      ReleaseRepresents(h, a.mem[..], x.B, a.B, t, s, id, block);
    } else {
      assert s - {id} == s;
    }
  }

  // Resizing is asked for only where realloc works in place, which the block's header tells.
  method PerformResize(a: S.Allocator, id: nat, size: nat, t: Handles, ghost s: Ideal)
      returns (t': Handles, ghost s': Ideal)
    requires Means(a, t, s)
    modifies a, a.mem
    ensures Means(a, t', s')
    ensures Step(a.mem.Length, old(AbstractOf(a, t, s)), Resize(id, size), AbstractOf(a, t', s'))
  {
    if id !in t || size + 15 > SIZE_MAX {
      return t, s;
    }
    assert Holds(a.mem[..], a.B, t[id], s[id]);
    if size == 0 {
      t', s' := PerformRelease(a, id, t, s);
      return;
    }
    HeaderIs(a, t[id].ptr);
    var blocksize := BlockSize(a.mem[t[id].ptr - 1]);
    if GetMallocSize(size) == blocksize || GetMallocSize(size) + 16 <= blocksize {
      t', s' := PerformShrink(a, id, size, t, s);
    } else {
      t', s' := t, s;
    }
  }

  lemma AllocStep(cap: nat, x: Abstract, id: nat, size: nat, r: nat, c: seq<Word>, y: Abstract)
    requires Succeeds(cap, x, id, size) && S.Allocated(x.B, x.L, x.brk, y.B, y.L, y.brk, r, size)
    requires |c| == WordsOf(size) && y.t == x.t[id := Handle(r, size)] && y.s == x.s[id := c]
    ensures Step(cap, x, Alloc(id, size), y)
  {
  }

  lemma ReleaseStep(cap: nat, x: Abstract, id: nat, a: nat, y: Abstract)
    requires id in x.t && x.t[id].ptr == a + 1 && Released(x.B, x.L, y.B, y.L, x.brk, a)
    requires y.brk == x.brk && y.t == x.t - {id} && y.s == x.s - {id}
    ensures HeapStep(cap, x, Release(id), y)
  {
  }

  lemma ResizedStep(cap: nat, x: Abstract, id: nat, size: nat, block: nat, c: seq<Word>, y: Abstract)
    requires InPlace(x, id, size) && size > 0 && id in x.s
    requires x.t[id].ptr == block + 1 && Trimmed(x.B, x.L, y.B, y.L, x.brk, block, RequestWords(size))
    requires |c| == WordsOf(size) && Agree(x.s[id], c)
    requires y.brk == x.brk && y.t == x.t[id := Handle(x.t[id].ptr, size)] && y.s == x.s[id := c]
    ensures Step(cap, x, Resize(id, size), y)
  {
  }

  method PerformShrink(a: S.Allocator, id: nat, size: nat, t: Handles, ghost s: Ideal)
      returns (t': Handles, ghost s': Ideal)
    requires Means(a, t, s) && size > 0 && InPlace(AbstractOf(a, t, s), id, size) && t[id].ptr - 1 in Live(a.B)
    modifies a, a.mem
    ensures Means(a, t', s')
    ensures Step(a.mem.Length, old(AbstractOf(a, t, s)), Resize(id, size), AbstractOf(a, t', s'))
  {
    ghost var x := AbstractOf(a, t, s);
    ghost var block: nat := t[id].ptr - 1;
    ghost var c := Shorten(a, t[id].ptr, id, size, x, block);
    t' := t[id := Handle(t[id].ptr, size)];
    s' := s[id := c];
    ResizedStep(a.mem.Length, x, id, size, block, c, AbstractOf(a, t', s'));
  }

  // realloc in place, by what it does to a live block.
  method ReallocLive(a: S.Allocator, ptr: nat, size: nat, ghost block: nat, ghost w: nat) returns (r: nat)
    requires a.Valid() && 0 < size && size + 15 <= SIZE_MAX && ptr == block + 1 && block in Live(a.B)
    requires GetMallocSize(size) == 4 * a.B[block].words || GetMallocSize(size) + 16 <= 4 * a.B[block].words
    requires w == RequestWords(size)
    modifies a, a.mem
    ensures a.Valid() && r == ptr && a.brk == old(a.brk)
    ensures WordsOf(size) + 2 <= w && 4 * w <= size + 23
    ensures block in a.B && End(a.B, block) <= a.mem.Length
    ensures KeepsRange(old(a.mem[..]), a.mem[..], block + 1, block + w - 1)
    ensures KeepsOthers(old(a.mem[..]), a.mem[..], old(a.B), block)
    ensures Trimmed(old(a.B), old(a.L), a.B, a.L, a.brk, block, w) && Live(a.B) == Live(old(a.B))[block := w - 2]
  {
    RequestFits(size);
    r := a.ReallocInPlace(ptr, size);
    assert block in Live(a.B);
    HeaderIs(a, ptr);
  }

  method Shorten(a: S.Allocator, ptr: nat, id: nat, size: nat, ghost x: Abstract, ghost block: nat)
      returns (ghost c: seq<Word>)
    requires Means(a, x.t, x.s) && x == AbstractOf(a, x.t, x.s)
    requires size > 0 && InPlace(x, id, size) && ptr == x.t[id].ptr == block + 1 && block in Live(x.B)
    modifies a, a.mem
    ensures a.Valid() && a.brk == x.brk
    ensures Trimmed(x.B, x.L, a.B, a.L, x.brk, block, RequestWords(size))
    ensures Represents(a.mem[..], a.B, x.t[id := Handle(ptr, size)], x.s[id := c])
    ensures id in x.s && |c| == WordsOf(size) && Agree(x.s[id], c)
  {
    ghost var h := a.mem[..];
    ghost var w := RequestWords(size);
    var r := ReallocLive(a, ptr, size, block, w);
    RoomFor(a, block, w);
    c := a.mem[..][block + 1..block + 1 + WordsOf(size)];
    ResizeRepresents(h, a.mem[..], x.B, a.B, x.t, x.s, id, block, size, w, c);
  }

  lemma RoomFor(a: S.Allocator, block: nat, w: nat)
    requires block in Live(a.B) && Live(a.B)[block] == w - 2 && End(a.B, block) <= a.mem.Length
    ensures block + w <= a.mem.Length
  {
  }

  lemma HeaderIs(a: S.Allocator, ptr: nat)
    requires a.Valid() && ptr >= 1 && ptr - 1 in Live(a.B)
    ensures ptr <= a.mem.Length && BlockSize(a.mem[ptr - 1]) == 4 * a.B[ptr - 1].words
    ensures End(a.B, ptr - 1) <= a.mem.Length
  {
    NeighbourTags(a.mem[..], a.B, FIRST_BLOCK, a.brk, ptr - 1);
  }

  method PerformAssign(a: S.Allocator, id: nat, k: nat, v: Word, t: Handles, ghost s: Ideal) returns (ghost s': Ideal)
    requires Means(a, t, s)
    modifies a, a.mem
    ensures Means(a, t, s')
    ensures Step(a.mem.Length, old(AbstractOf(a, t, s)), Assign(id, k, v), AbstractOf(a, t, s'))
  {
    s' := s;
    if id in t {
      ghost var h := a.mem[..];
      assert Holds(h, a.B, t[id], s[id]);
      if k < WordsOf(t[id].size) {
        a.Store(t[id].ptr, k, v);
        AssignRepresents(h, a.mem[..], a.B, t, s, id, k, v);
        s' := s[id := Put(s[id], k, v)];
      }
    }
  }

  /** Under the script the abstract machine can get from x to y. Only fresh contents are left open. */
  ghost predicate LeadsTo(cap: nat, x: Abstract, script: seq<Op>, y: Abstract)
    decreases |script|
  {
    if script == [] then y == x
    else exists z {:trigger Step(cap, x, script[0], z)} :: Step(cap, x, script[0], z) && LeadsTo(cap, z, script[1..], y)
  }

  lemma StepFirst(cap: nat, x: Abstract, script: seq<Op>, z: Abstract, y: Abstract)
    requires script != [] && Step(cap, x, script[0], z) && LeadsTo(cap, z, script[1..], y)
    ensures LeadsTo(cap, x, script, y)
  {
  }

  /** Carry out a script on a heap that holds s. */
  method RunFrom(a: S.Allocator, script: seq<Op>, t: Handles, ghost s: Ideal) returns (t': Handles, ghost s': Ideal)
    requires Means(a, t, s)
    modifies a, a.mem
    ensures Means(a, t', s')
    ensures LeadsTo(a.mem.Length, old(AbstractOf(a, t, s)), script, AbstractOf(a, t', s'))
    decreases |script|
  {
    ghost var x := AbstractOf(a, t, s);
    if script == [] {
      t', s' := t, s;
    } else {
      t', s' := Perform(a, script[0], t, s);
      ghost var z := AbstractOf(a, t', s');
      t', s' := RunFrom(a, script[1..], t', s');
      StepFirst(a.mem.Length, x, script, z, AbstractOf(a, t', s'));
    }
  }

  // The machine after mm_init: one chunk of free heap, nothing owned.
  ghost predicate Fresh(x: Abstract) {
    x.B == map[13 := Block(64, true)] && x.brk == 77 && x.t == map[] && x.s == map[]
  }

  lemma NothingHeld(h: seq<Word>, B: Layout)
    ensures Represents(h, B, map[], map[])
  {
  }

  lemma FreshIs(x: Abstract)
    requires x.B == map[FIRST_BLOCK := Block(S.CHUNKSIZE / 4, true)] && x.brk == FIRST_BLOCK + S.CHUNKSIZE / 4
    requires x.t == map[] && x.s == map[]
    ensures Fresh(x)
  {
  }

  /**
   * After any script, from any fresh heap, the words of the heap mean exactly what the abstract machine says: nothing
   * that was written is lost or overwritten, whatever is allocated, freed, shrunk, split and merged around it, and a
   * request fails only when it must.
   */
  method Run(capacity: nat, script: seq<Op>)
      returns (a: S.Allocator, t: Handles, ghost s: Ideal, ghost first: Abstract, ok: bool)
    requires capacity <= MAX_WORDS
    ensures ok <==> capacity >= 77
    ensures ok ==> Fresh(first) && LeadsTo(capacity, first, script, AbstractOf(a, t, s)) && Means(a, t, s)
  {
    a := new S.Allocator(capacity);
    t, s := map[], map[];
    var e := a.MmInit();
    ok := e == 0;
    first := AbstractOf(a, t, s);
    if ok {
      NothingHeld(a.mem[..], a.B);
      FreshIs(first);
      t, s := RunFrom(a, script, t, s);
    }
  }
}
