/** The nine size-segregated free lists as values: which blocks each holds, and how the words wire them up. */
module SegLists {
  import opened Words
  import opened Blocks
  import opened Links
  import opened Sequences
  import opened Tags
  import C = CInts

  // heap_ptr after mm_init: the prologue header, one word past the start of the heap.
  const HEAP_PTR := 1
  // The epilogue word, which ends every list; real blocks start right behind it.
  const EPILOGUE := 12
  const FIRST_BLOCK := 13
  const LAST_SLOT := 10

  // The list a block size (in bytes) belongs to: 1 .. 9.
  function GetSegListIndex(blocksize: nat): (index: nat)
    ensures 1 <= index <= 9
  {
    1 + Bit(blocksize >= 32) + Bit(blocksize >= 64) + Bit(blocksize >= 128) + Bit(blocksize >= 256)
      + Bit(blocksize >= 512) + Bit(blocksize >= 1024) + Bit(blocksize >= 2048) + Bit(blocksize >= 4096)
  }

  // Class i holds the blocks of 2^(i+3) bytes and more, up to 2^(i+4); the first and the last are open-ended.
  ghost predicate InClass(i: int, bytes: int) {
    1 <= i <= 9 && (i == 1 || C.Pow2(i + 3) <= bytes) && (i == 9 || bytes < C.Pow2(i + 4))
  }

  /** The index of a size is the one class that contains it. */
  lemma ClassBySize(bytes: nat, i: nat)
    ensures GetSegListIndex(bytes) == i <==> InClass(i, bytes)
    ensures i == 1 ==> (InClass(i, bytes) <==> bytes < 32)
    ensures 2 <= i <= 8 ==> (InClass(i, bytes) <==> C.Pow2(i + 3) <= bytes < 2 * C.Pow2(i + 3))
    ensures i == 9 ==> (InClass(i, bytes) <==> bytes >= 4096)
  {
    C.Pow2Values();
    assert C.Pow2(5) == 2 * C.Pow2(4) && C.Pow2(6) == 2 * C.Pow2(5) && C.Pow2(7) == 2 * C.Pow2(6);
    assert C.Pow2(9) == 2 * C.Pow2(8) && C.Pow2(10) == 2 * C.Pow2(9) && C.Pow2(11) == 2 * C.Pow2(10);
    assert C.Pow2(12) == 2 * C.Pow2(11);
  }

  function Bit(b: bool): nat {
    if b then 1 else 0
  }

  // The prologue word that heads the list for blocks of this many words.
  function Slot(words: nat): (slot: nat)
    ensures 2 <= slot <= LAST_SLOT
  {
    HEAP_PTR + GetSegListIndex(4 * words)
  }

  // The word that holds the next link of p: the slot itself, or the word behind a block's header.
  function NextWord(p: nat): nat {
    if HEAP_PTR < p < HEAP_PTR + 10 then p else p + 1
  }

  // Lists by slot; positions 0 and 1 are unused.
  type FreeLists = L: seq<seq<nat>> | |L| == LAST_SLOT + 1 witness seq(LAST_SLOT + 1, i => [])

  function SlotHead(i: nat): Head {
    Head(i, i, EPILOGUE)
  }

  /** The list each free block belongs to. */
  function Classes(B: Layout): map<int, nat> {
    map a: nat | a in B && B[a].free :: (a as int) := Slot(B[a].words)
  }

  /** The lists hold each block of F outside `out` exactly once, in the list `cls` names. */
  ghost predicate Listed(F: set<int>, cls: map<int, nat>, L: FreeLists, out: set<int>) {
    && (forall i {:trigger L[i]} | 2 <= i <= LAST_SLOT :: ListedIn(F, cls, L[i], i, out))
    && (forall a {:trigger a in F} | a in F && a !in out :: IsListed(cls, L, a))
  }

  ghost predicate ListedIn(F: set<int>, cls: map<int, nat>, s: seq<nat>, i: nat, out: set<int>) {
    && Lists(s, F)
    && forall k {:trigger s[k]} | 0 <= k < |s| :: s[k] in cls && cls[s[k]] == i && s[k] !in out
  }

  ghost predicate IsListed(cls: map<int, nat>, L: FreeLists, a: int) {
    a in cls && 2 <= cls[a] <= LAST_SLOT && a in L[cls[a]]
  }

  ghost predicate Linked(h: seq<Word>, L: FreeLists) {
    forall i {:trigger SlotHead(i)} | 2 <= i <= LAST_SLOT :: Chain(h, SlotHead(i), L[i])
  }

  // The free bits that the list code tests: set in the epilogue, clear in every free block.
  ghost predicate Parity(h: seq<Word>, F: set<int>) {
    && EPILOGUE < |h| && h[EPILOGUE] == 1
    && forall f {:trigger f in F} | f in F :: 0 <= f && f + 2 < |h| && h[f] % 2 == 0
  }

  ghost predicate Shape(h: seq<Word>, F: set<int>, cls: map<int, nat>, L: FreeLists, out: set<int>) {
    && Listed(F, cls, L, out)
    && Linked(h, L)
    && Sparse(F, FIRST_BLOCK)
  }

  /** Everything the list code relies on, for the free blocks F except those in `out`. */
  ghost predicate Wired(h: seq<Word>, F: set<int>, cls: map<int, nat>, L: FreeLists, out: set<int>) {
    Shape(h, F, cls, L, out) && Parity(h, F)
  }

  // List operations: removing, pushing to the front, and substituting in place.
  function Drop(L: FreeLists, a: nat): FreeLists {
    seq(|L|, i requires 0 <= i < |L| => Without(L[i], a))
  }

  function PushFront(L: FreeLists, i: nat, a: nat): FreeLists
    requires i < |L|
  {
    L[i := [a] + L[i]]
  }

  function Substitute(L: FreeLists, a: nat, b: nat): FreeLists {
    seq(|L|, i requires 0 <= i < |L| => Replace(L[i], a, b))
  }

  /** No block is in two lists, so an operation on one list leaves the others as they are. */
  lemma NotElsewhere(F: set<int>, cls: map<int, nat>, L: FreeLists, out: set<int>, a: nat, j: nat)
    requires Listed(F, cls, L, out) && 2 <= j <= LAST_SLOT && a in cls && cls[a] != j
    ensures a !in L[j] && Without(L[j], a) == L[j] && forall b :: Replace(L[j], a, b) == L[j]
  {
    assert ListedIn(F, cls, L[j], j, out);
    WithoutAbsent(L[j], a);
    ReplaceAbsent(L[j], a);
  }

  // x is a word that an operation on list i may write.
  ghost predicate OwnWord(F: set<int>, cls: map<int, nat>, i: nat, out: set<int>, x: int) {
    x == i || OwnBlock(F, cls, i, out, x - 1) || OwnBlock(F, cls, i, out, x - 2)
  }

  ghost predicate OwnBlock(F: set<int>, cls: map<int, nat>, i: nat, out: set<int>, f: int) {
    f in F && (f in out || (f in cls && cls[f] == i))
  }

  lemma OtherChain(h: seq<Word>, h': seq<Word>, F: set<int>, cls: map<int, nat>, L: FreeLists, out: set<int>,
                   i: nat, j: nat, W: set<int>)
    requires Shape(h, F, cls, L, out) && 2 <= i <= LAST_SLOT && 2 <= j <= LAST_SLOT && i != j
    requires Wrote(h, h', W) && forall x | x in W :: OwnWord(F, cls, i, out, x)
    ensures Chain(h', SlotHead(j), L[j])
  {
    var s := L[j];
    assert ListedIn(F, cls, s, j, out);
    assert SlotHead(j).loc == j;
    forall k | 0 <= k < |s| && s[k] + 2 < |h| ensures h'[s[k] + 1] == h[s[k] + 1] && h'[s[k] + 2] == h[s[k] + 2] {
      ForeignWord(F, cls, i, out, s[k], s[k] + 1);
      ForeignWord(F, cls, i, out, s[k], s[k] + 2);
    }
    assert !OwnWord(F, cls, i, out, j);
    ChainFrame(h, h', SlotHead(j), s);
  }

  lemma ForeignWord(F: set<int>, cls: map<int, nat>, i: nat, out: set<int>, f: int, x: int)
    requires Sparse(F, FIRST_BLOCK) && i <= LAST_SLOT && f in F && !OwnBlock(F, cls, i, out, f)
    requires f < x <= f + 2
    ensures !OwnWord(F, cls, i, out, x)
  {
    assert x - 1 in F ==> Far(f, x - 1);
    assert x - 2 in F ==> Far(f, x - 2);
  }

  lemma ParityFrame(h: seq<Word>, h': seq<Word>, F: set<int>, G: set<int>)
    requires Sparse(F, FIRST_BLOCK) && G <= F && Parity(h, G) && Frame(h, h', LAST_SLOT, F, {})
    ensures Parity(h', G)
  {
    forall f | f in G ensures 0 <= f && f + 2 < |h'| && h'[f] % 2 == 0 {
      assert f - 1 in F ==> Far(f, f - 1);
      assert f - 2 in F ==> Far(f, f - 2);
    }
    assert !LinkWord(LAST_SLOT, F, EPILOGUE);
  }

  // ---- removeBlock -----------------------------------------------------------

  lemma RemoveListed(F: set<int>, cls: map<int, nat>, L: FreeLists, out: set<int>, a: nat)
    requires Listed(F, cls, L, out) && a in F && a !in out
    ensures Listed(F, cls, Drop(L, a), out + {a})
  {
    assert IsListed(cls, L, a);
    forall j | 2 <= j <= LAST_SLOT ensures ListedIn(F, cls, Drop(L, a)[j], j, out + {a}) {
      assert ListedIn(F, cls, L[j], j, out);
      if j != cls[a] {
        NotElsewhere(F, cls, L, out, a, j);
      } else {
        RemoveListedIn(F, cls, L[j], j, out, a);
      }
    }
    forall b | b in F && b !in out + {a} ensures IsListed(cls, Drop(L, a), b) {
      assert IsListed(cls, L, b);
      WithoutKeeps(L[cls[b]], a, b);
    }
  }

  lemma RemoveListedIn(F: set<int>, cls: map<int, nat>, s: seq<nat>, i: nat, out: set<int>, a: nat)
    requires ListedIn(F, cls, s, i, out) && a in s
    ensures ListedIn(F, cls, Without(s, a), i, out + {a})
  {
    var k :| 0 <= k < |s| && s[k] == a;
    WithoutRemoved(s, F, k);
  }

  lemma RemoveShape(h: seq<Word>, h': seq<Word>, F: set<int>, cls: map<int, nat>, L: FreeLists, out: set<int>,
                    i: nat, k: nat)
    requires Shape(h, F, cls, L, out) && 2 <= i <= LAST_SLOT && k < |L[i]|
    requires Unlinked(h, h', SlotHead(i), L[i], k)
    ensures Shape(h', F, cls, Drop(L, L[i][k]), out + {L[i][k]})
    ensures Frame(h, h', LAST_SLOT, F, {}) && Frame(h, h', LAST_SLOT, F - {L[i][k]}, {})
  {
    var a, s := L[i][k], L[i];
    assert ListedIn(F, cls, s, i, out);
    assert k > 0 ==> s[k - 1] in F - {a};
    assert k + 1 < |s| ==> s[k + 1] in F - {a};
    var W: set<int> := {LinkTo(SlotHead(i), s, k)} + if k + 1 < |s| then {s[k + 1] + 2} else {};
    forall x | x in W ensures OwnWord(F, cls, i, out, x) {
      assert k > 0 ==> OwnBlock(F, cls, i, out, s[k - 1]);
      assert k + 1 < |s| ==> OwnBlock(F, cls, i, out, s[k + 1]);
    }
    RemoveListed(F, cls, L, out, a);
    forall j | 2 <= j <= LAST_SLOT ensures Chain(h', SlotHead(j), Drop(L, a)[j]) {
      if j == i {
        WithoutRemoved(s, F, k);
        assert Chain(h, SlotHead(i), s);
        ChainRemove(h, h', SlotHead(i), s, F, k, Without(s, a));
      } else {
        OtherChain(h, h', F, cls, L, out, i, j, W);
        NotElsewhere(F, cls, L, out, a, j);
      }
    }
  }

  lemma RemoveWired(h: seq<Word>, h': seq<Word>, F: set<int>, cls: map<int, nat>, L: FreeLists, out: set<int>, i: nat,
                    k: nat)
    requires Wired(h, F, cls, L, out) && 2 <= i <= LAST_SLOT && k < |L[i]|
    requires Unlinked(h, h', SlotHead(i), L[i], k)
    ensures Wired(h', F, cls, Drop(L, L[i][k]), out + {L[i][k]})
    ensures Frame(h, h', LAST_SLOT, F, {})
  {
    RemoveShape(h, h', F, cls, L, out, i, k);
    ParityFrame(h, h', F, F);
  }

  // Everything removeBlock relies on when it reads and rewrites the links around element k of s.
  ghost predicate UnlinkReads(h: seq<Word>, s: seq<nat>, i: nat, k: nat) {
    && k < |s| && EPILOGUE < |h| && 2 <= i <= LAST_SLOT
    && FIRST_BLOCK <= s[k] < |h| - 2
    && h[s[k] + 1] == At(s, k + 1, EPILOGUE)
    && h[s[k] + 2] == Before(s, k, i)
    && (k > 0 ==> FIRST_BLOCK <= s[k - 1] < |h| - 2)
    && (k + 1 < |s| ==> FIRST_BLOCK <= s[k + 1] < |h| - 2 && h[s[k + 1]] % 2 == 0)
    && (k > 0 && k + 1 < |s| ==> Far(s[k - 1], s[k + 1]) && s[k - 1] != s[k + 1])
    && h[EPILOGUE] == 1
  }

  lemma RemoveReads(h: seq<Word>, F: set<int>, cls: map<int, nat>, L: FreeLists, out: set<int>, a: nat)
      returns (i: nat, k: nat)
    requires Shape(h, F, cls, L, out) && Parity(h, F - {a}) && a in F && a !in out
    ensures 2 <= i <= LAST_SLOT && k < |L[i]| && L[i][k] == a && a in cls && cls[a] == i
    ensures UnlinkReads(h, L[i], i, k)
  {
    assert IsListed(cls, L, a);
    i := cls[a];
    k :| 0 <= k < |L[i]| && L[i][k] == a;
    assert ListedIn(F, cls, L[i], i, out);
    assert Chain(h, SlotHead(i), L[i]) && ChainAt(h, SlotHead(i), L[i], k);
    assert k > 0 ==> ChainAt(h, SlotHead(i), L[i], k - 1);
    assert k + 1 < |L[i]| ==> L[i][k + 1] in F - {a};
    assert k > 0 && k + 1 < |L[i]| ==> Far(L[i][k - 1], L[i][k + 1]);
  }

  // ---- placeFreeBlock --------------------------------------------------------

  lemma PushShape(h: seq<Word>, h': seq<Word>, F: set<int>, cls: map<int, nat>, L: FreeLists, out: set<int>, a: nat)
    requires Shape(h, F, cls, L, out) && a in F && a in out && a in cls && 2 <= cls[a] <= LAST_SLOT
    requires Pushed(h, h', SlotHead(cls[a]), L[cls[a]], a)
    ensures Shape(h', F, cls, PushFront(L, cls[a], a), out - {a})
    ensures Frame(h, h', LAST_SLOT, F, {})
  {
    var i := cls[a];
    var s, M := L[i], PushFront(L, i, a);
    assert ListedIn(F, cls, s, i, out);
    var W: set<int> := {a + 1, a + 2, i} + if s == [] then {} else {s[0] + 2};
    assert OwnBlock(F, cls, i, out, a);
    forall x | x in W ensures OwnWord(F, cls, i, out, x) {
      assert s != [] ==> OwnBlock(F, cls, i, out, s[0]);
    }
    assert a !in s;
    assert Chain(h, SlotHead(i), s);
    ChainPush(h, h', SlotHead(i), s, F, a);
    forall j | 2 <= j <= LAST_SLOT ensures Chain(h', SlotHead(j), M[j]) && ListedIn(F, cls, M[j], j, out - {a}) {
      if j != i {
        OtherChain(h, h', F, cls, L, out, i, j, W);
        assert ListedIn(F, cls, L[j], j, out);
      }
    }
    forall b | b in F && b !in out - {a} ensures IsListed(cls, M, b) {
      assert b != a ==> IsListed(cls, L, b);
    }
  }

  // ---- Substitution in place -------------------------------------------------

  lemma SubstituteListed(F: set<int>, cls: map<int, nat>, L: FreeLists, i: nat, k: nat, b: nat)
    requires Listed(F, cls, L, {}) && 2 <= i <= LAST_SLOT && k < |L[i]| && b !in F
    ensures Listed(F - {L[i][k]} + {b}, cls[b := i], Substitute(L, L[i][k], b), {})
    ensures Substitute(L, L[i][k], b)[i] == L[i][k := b]
    ensures forall j | 2 <= j <= LAST_SLOT && j != i :: Substitute(L, L[i][k], b)[j] == L[j]
  {
    var a, s := L[i][k], L[i];
    var M, G, dls := Substitute(L, a, b), F - {a} + {b}, cls[b := i];
    assert ListedIn(F, cls, s, i, {});
    ReplaceAt(s, k, b);
    forall j | 2 <= j <= LAST_SLOT ensures ListedIn(G, dls, M[j], j, {}) && (j != i ==> M[j] == L[j]) {
      assert ListedIn(F, cls, L[j], j, {});
      if j != i {
        NotElsewhere(F, cls, L, {}, a, j);
      }
    }
    forall c | c in G ensures IsListed(dls, M, c) {
      if c == b {
        assert M[i][k] == b;
      } else {
        assert IsListed(cls, L, c);
        var m :| 0 <= m < |L[cls[c]]| && L[cls[c]][m] == c;
        assert M[cls[c]][m] == c;
      }
    }
  }

  lemma SubstituteShape(h: seq<Word>, h': seq<Word>, F: set<int>, cls: map<int, nat>, L: FreeLists, i: nat, k: nat,
                        b: nat)
    requires Shape(h, F, cls, L, {}) && 2 <= i <= LAST_SLOT && k < |L[i]| && b !in F
    requires Sparse(F - {L[i][k]} + {b}, FIRST_BLOCK) && ClearOf(F - {L[i][k]}, b)
    requires Replaced(h, h', SlotHead(i), L[i], k, b)
    ensures Shape(h', F - {L[i][k]} + {b}, cls[b := i], Substitute(L, L[i][k], b), {})
    ensures Frame(h, h', LAST_SLOT, F - {L[i][k]} + {b}, {})
  {
    var a, s := L[i][k], L[i];
    var M, G := Substitute(L, a, b), F - {a} + {b};
    SubstituteListed(F, cls, L, i, k, b);
    assert ListedIn(F, cls, s, i, {}) && ListedIn(G, cls[b := i], M[i], i, {});
    var W: set<int> := {b + 1, b + 2, LinkTo(SlotHead(i), s, k)} + if k + 1 < |s| then {s[k + 1] + 2} else {};
    forall j | 2 <= j <= LAST_SLOT ensures Chain(h', SlotHead(j), M[j]) {
      assert Chain(h, SlotHead(j), L[j]);
      if j == i {
        ChainReplace(h, h', SlotHead(i), s, G, k, b);
      } else {
        SubstituteOther(h, h', F, cls, L, i, k, b, j, W);
      }
    }
  }

  lemma SubstituteOther(h: seq<Word>, h': seq<Word>, F: set<int>, cls: map<int, nat>, L: FreeLists, i: nat, k: nat,
                        b: nat, j: nat, W: set<int>)
    requires Shape(h, F, cls, L, {}) && 2 <= i <= LAST_SLOT && 2 <= j <= LAST_SLOT && i != j && k < |L[i]|
    requires FIRST_BLOCK <= b && ClearOf(F - {L[i][k]}, b)
    requires W == {b + 1, b + 2, LinkTo(SlotHead(i), L[i], k)} + if k + 1 < |L[i]| then {L[i][k + 1] + 2} else {}
    requires Wrote(h, h', W)
    ensures Chain(h', SlotHead(j), L[j])
  {
    var s, t := L[i], L[j];
    assert ListedIn(F, cls, s, i, {}) && ListedIn(F, cls, t, j, {});
    assert Chain(h, SlotHead(j), t);
    forall m | 0 <= m < |t| && t[m] + 2 < |h| ensures h'[t[m] + 1] == h[t[m] + 1] && h'[t[m] + 2] == h[t[m] + 2] {
      assert k > 0 ==> Far(t[m], s[k - 1]);
      assert k + 1 < |s| ==> Far(t[m], s[k + 1]);
      assert t[m] in F - {s[k]} && Far(t[m], b);
    }
    ChainFrame(h, h', SlotHead(j), t);
  }

  // ---- Changes of layout -----------------------------------------------------

  /** Blocks that are in no list may disappear, or change class. */
  lemma Rewire(h: seq<Word>, F: set<int>, G: set<int>, cls: map<int, nat>, dls: map<int, nat>, L: FreeLists,
               out: set<int>)
    requires Wired(h, F, cls, L, out) && G <= F && F - G <= out
    requires forall a | a in F && a !in out :: a in dls && a in cls && dls[a] == cls[a]
    ensures Wired(h, G, dls, L, out * G)
  {
    RewireShape(h, F, G, cls, dls, L, out);
  }

  lemma RewireShape(h: seq<Word>, F: set<int>, G: set<int>, cls: map<int, nat>, dls: map<int, nat>, L: FreeLists,
                    out: set<int>)
    requires Shape(h, F, cls, L, out) && G <= F && F - G <= out
    requires forall a | a in F && a !in out :: a in dls && a in cls && dls[a] == cls[a]
    ensures Shape(h, G, dls, L, out * G)
  {
    forall i | 2 <= i <= LAST_SLOT ensures ListedIn(G, dls, L[i], i, out * G) {
      assert ListedIn(F, cls, L[i], i, out);
    }
    forall a | a in G && a !in out * G ensures IsListed(dls, L, a) {
      assert IsListed(cls, L, a);
    }
  }

  /** The tag writes of a merge do not disturb any list. */
  lemma MergeTagsWired(h: seq<Word>, h1: seq<Word>, B: Layout, hi: nat, a: nat, cls: map<int, nat>, L: FreeLists,
                       out: set<int>)
    requires Tiles(B, FIRST_BLOCK, hi) && a in B && B[a].free && MergeLast(B, a) in B
    requires Wired(h, Frees(B), cls, L, out) && MergeTagged(h, h1, B, a)
    ensures Wired(h1, Frees(B), cls, L, out)
  {
    var F, m, g := Frees(B), MergeStart(B, a), MergeLast(B, a);
    var e := End(B, g);
    CoalesceParts(B, FIRST_BLOCK, hi, a);
    assert BlockFits(B, FIRST_BLOCK, hi, m) && BlockFits(B, FIRST_BLOCK, hi, g);
    ModTwo(h1[m], 2 * (e - m), 0);
    forall f | f in F ensures f + 2 < |h1| && h1[f] % 2 == 0 && h1[f + 1] == h[f + 1] && h1[f + 2] == h[f + 2] {
      assert Far(f, m);
      assert Apart(B, f, g) && BlockFits(B, FIRST_BLOCK, hi, f);
    }
    forall j | 2 <= j <= LAST_SLOT ensures Chain(h1, SlotHead(j), L[j]) {
      assert ListedIn(F, cls, L[j], j, out) && Chain(h, SlotHead(j), L[j]);
      ChainFrame(h, h1, SlotHead(j), L[j]);
    }
  }

  /** Once all parts of a merge are off the lists, the lists fit the merged layout. */
  lemma MergeRewire(h: seq<Word>, B: Layout, hi: nat, a: nat, L: FreeLists)
    requires Tiles(B, FIRST_BLOCK, hi) && a in B && B[a].free && B[a].words > 0
    requires Wired(h, Frees(B), Classes(B), L, MergeParts(B, a))
    ensures var C := Coalesce(B, a);
      Frees(C) <= Frees(B) && Wired(h, Frees(C), Classes(C), L, {MergeStart(B, a)})
  {
    var C, m := Coalesce(B, a), MergeStart(B, a);
    CoalesceParts(B, FIRST_BLOCK, hi, a);
    Rewire(h, Frees(B), Frees(C), Classes(B), Classes(C), L, MergeParts(B, a));
    assert MergeParts(B, a) * Frees(C) == {m as int};
  }

  // ---- What coalesce means for layout and lists ------------------------------

  // The lists once the free neighbours to be merged are off them.
  ghost function Unlisted(B: Layout, L: FreeLists, a: nat): FreeLists
    requires a in B
  {
    var L1 := if LeftFree(B, a) then Drop(L, Left(B, a)) else L;
    if RightFree(B, a) then Drop(L1, End(B, a)) else L1
  }

  // The merged neighbours leave their lists and the result goes to the front of its own.
  ghost function FreedLists(B: Layout, L: FreeLists, hi: nat, a: nat): FreeLists
    requires a in B && B[a].words > 0
  {
    var C, m := Freed(B, hi, a), FreedAt(B, hi, a);
    if m !in C then L
    else PushFront(if End(B, a) == hi then L else Unlisted(B, L, a), Slot(C[m].words), m)
  }

  /** C and M are what coalescing and listing free block a turns B and L into. */
  ghost predicate Merged(B: Layout, L: FreeLists, C: Layout, M: FreeLists, hi: nat, a: nat) {
    && a in B && B[a].words > 0
    && C == Freed(B, hi, a)
    && M == FreedLists(B, L, hi, a)
  }

  // a heads the list for its size in bytes.
  ghost predicate Heads(L: FreeLists, a: nat, bytes: int) {
    forall i {:trigger L[i]} | 2 <= i <= LAST_SLOT && InClass(i - 1, bytes) :: L[i] != [] && L[i][0] == a
  }

  /** What is freed, merged with its neighbours, heads the list for its size. */
  lemma MergedHeads(B: Layout, L: FreeLists, C: Layout, M: FreeLists, hi: nat, a: nat)
    requires Tiles(B, FIRST_BLOCK, hi) && a in B && B[a].free && Merged(B, L, C, M, hi, a)
    ensures var m := FreedAt(B, hi, a); m in C && C[m].free && Heads(M, m, 4 * C[m].words)
  {
    var m := FreedAt(B, hi, a);
    CoalesceParts(B, FIRST_BLOCK, hi, a);
    assert BlockFits(Coalesce(B, a), FIRST_BLOCK, hi, MergeStart(B, a)) && BlockFits(B, FIRST_BLOCK, hi, a);
    forall i | 2 <= i <= LAST_SLOT && InClass(i - 1, 4 * C[m].words) ensures M[i] != [] && M[i][0] == m {
      ClassBySize(4 * C[m].words, i - 1);
    }
  }

  /** C and M are what freeing live block a turns B and L into. */
  ghost predicate Released(B: Layout, L: FreeLists, C: Layout, M: FreeLists, hi: nat, a: nat) {
    && a in B && !B[a].free
    && Merged(Mark(B, a, true), L, C, M, hi, a)
    && Live(C) == Live(B) - {a}
  }

  /** C and M are what allocating w words in free block a turns B and L into. */
  ghost predicate Placed(B: Layout, L: FreeLists, C: Layout, M: FreeLists, a: nat, w: nat) {
    && a in B && w <= B[a].words
    && C == Place(B, a, w)
    && M == PlacedLists(B, L, a, w)
  }

  /** C and M are B and L with a free block of w words added at hi. */
  ghost predicate Grown(B: Layout, L: FreeLists, C: Layout, M: FreeLists, hi: nat, w: nat) {
    && hi !in B
    && C == B[hi := Block(w, true)]
    && M == PushFront(L, Slot(w), hi)
  }

  /** C and M are B and L grown by g words, of which the first w are then allocated. */
  ghost predicate GrownAndPlaced(B: Layout, L: FreeLists, C: Layout, M: FreeLists, hi: nat, g: nat, w: nat) {
    Placed(B[hi := Block(g, true)], PushFront(L, Slot(g), hi), C, M, hi, w)
  }

  // Coalescing the new top block merges nothing.
  lemma GrownIs(B: Layout, L: FreeLists, C: Layout, M: FreeLists, hi: nat, w: nat)
    requires hi !in B && w > 0 && Merged(B[hi := Block(w, true)], L, C, M, hi + w, hi)
    ensures Grown(B, L, C, M, hi, w)
  {
  }

  lemma ExtendDone(h: seq<Word>, h1: seq<Word>, h2: seq<Word>, B: Layout, L: FreeLists, C: Layout, M: FreeLists,
                   hi: nat, w: nat)
    requires hi !in B && w > 0 && Merged(B[hi := Block(w, true)], L, C, M, hi + w, hi)
    requires KeepsLive(h, h1, B) && KeepsLive(h1, h2, B[hi := Block(w, true)])
    ensures Grown(B, L, C, M, hi, w) && KeepsLive(h, h2, B)
  {
    GrownIs(B, L, C, M, hi, w);
    KeepsLiveTrans(h, h1, h2, B, B[hi := Block(w, true)]);
  }

  lemma PlacedInFresh(B: Layout, L: FreeLists, B1: Layout, L1: FreeLists, C: Layout, M: FreeLists, hi: nat, g: nat,
                      w: nat)
    requires Grown(B, L, B1, L1, hi, g) && Placed(B1, L1, C, M, hi, w)
    ensures GrownAndPlaced(B, L, C, M, hi, g, w)
  {
  }

  // h: before a merge; h1: its tags written; h2: its parts off the lists.
  ghost predicate Merging(h: seq<Word>, h1: seq<Word>, h2: seq<Word>, B: Layout, hi: nat, a: nat) {
    && |h2| == |h| && hi <= |h|
    && Tiles(B, FIRST_BLOCK, hi) && Tagged(h, B)
    && a in B && B[a].free && B[a].words > 0
    && MergeLast(B, a) in B && MergeTagged(h, h1, B, a)
    && Frame(h1, h2, LAST_SLOT, Frees(B), {})
  }

  /** The merged block is ready to be put on a list. */
  lemma RelistReady(h: seq<Word>, h1: seq<Word>, h2: seq<Word>, B: Layout, hi: nat, a: nat, L: FreeLists)
    requires Merging(h, h1, h2, B, hi, a)
    requires Wired(h2, Frees(B), Classes(B), L, MergeParts(B, a))
    ensures var C, m := Coalesce(B, a), MergeStart(B, a);
      && Tiles(C, FIRST_BLOCK, hi) && m in C && C[m].free && m in Frees(C) && m in B
      && m < |h| && BlockSize(h2[m]) == 4 * C[m].words
      && Wired(h2, Frees(C), Classes(C), L, {m})
  {
    var C, m := Coalesce(B, a), MergeStart(B, a);
    CoalesceParts(B, FIRST_BLOCK, hi, a);
    MergeDone(h, h1, h2, B, FIRST_BLOCK, hi, LAST_SLOT, a);
    MergeRewire(h2, B, hi, a, L);
    assert BlockFits(C, FIRST_BLOCK, hi, m) && TaggedAt(h2, C, m);
    TagParts(C[m], h2[m]);
  }

  lemma RelistDone(h: seq<Word>, h1: seq<Word>, h2: seq<Word>, h3: seq<Word>, B: Layout, hi: nat, a: nat)
    requires Merging(h, h1, h2, B, hi, a)
    requires Frame(h2, h3, LAST_SLOT, Frees(Coalesce(B, a)), {})
    ensures Tagged(h3, Coalesce(B, a)) && KeepsLive(h, h3, B)
    ensures forall i | 0 <= i < FIRST_BLOCK && i < |h| && !(2 <= i <= LAST_SLOT) :: h3[i] == h[i]
  {
    CoalesceParts(B, FIRST_BLOCK, hi, a);
    FrameTrans(h1, h2, h3, LAST_SLOT, Frees(B), Frees(Coalesce(B, a)), {});
    MergeDone(h, h1, h3, B, FIRST_BLOCK, hi, LAST_SLOT, a);
    FreesSparse(B, FIRST_BLOCK, hi);
    assert BlockFits(B, FIRST_BLOCK, hi, MergeStart(B, a)) && BlockFits(B, FIRST_BLOCK, hi, MergeLast(B, a));
  }

  // ---- What place means for the lists ----------------------------------------

  // The remainder of a split takes the block's place, or moves to the front of the list for its own size.
  function PlacedLists(B: Layout, L: FreeLists, a: nat, w: nat): FreeLists
    requires a in B && w <= B[a].words
  {
    if !Splits(B, a, w) then Drop(L, a)
    else if Slot(B[a].words - w) == Slot(B[a].words) then Substitute(L, a, a + w)
    else PushFront(Drop(Substitute(L, a, a + w), a + w), Slot(B[a].words - w), a + w)
  }

  // What becomes of the list for one class when w words are placed in block a, at position k of its list: the
  // remainder, if any, takes the place of a when it is of the same class, and goes to the front of its list otherwise.
  ghost predicate PlacedInClass(s: seq<nat>, t: seq<nat>, k: nat, a: nat, w: nat, holds: bool, takes: bool) {
    if holds then
      && k < |s| && s[k] == a
      && t == if takes then s[k := a + w] else s[..k] + s[k + 1..]
    else t == if takes then [a + w] + s else s
  }

  /** What place does to the order of each list. */
  lemma PlacedOrder(B: Layout, hi: nat, L: FreeLists, a: nat, w: nat, j: nat, k: nat)
    requires Tiles(B, FIRST_BLOCK, hi) && a in B && B[a].free && 4 <= w <= B[a].words && w % 2 == 0
    requires Listed(Frees(B), Classes(B), L, {}) && 2 <= j <= LAST_SLOT
    requires a in L[j] ==> k < |L[j]| && L[j][k] == a
    ensures PlacedInClass(L[j], PlacedLists(B, L, a, w)[j], k, a, w, InClass(j - 1, 4 * B[a].words),
      B[a].words >= w + 4 && InClass(j - 1, 4 * (B[a].words - w)))
  {
    ClassBySize(4 * B[a].words, j - 1);
    ClassBySize(4 * (B[a].words - w), j - 1);
    ClassOf(B, a);
    if Splits(B, a, w) {
      RestUnlisted(B, hi, L, a, w, j);
    }
    if j == Slot(B[a].words) {
      IsIn(Frees(B), Classes(B), L, a, j);
      OwnOrder(B, Frees(B), L, a, w, j, k);
    } else {
      NotIn(Frees(B), Classes(B), L, a, j);
      OtherOrder(B, L, a, w, j);
    }
  }

  lemma RestUnlisted(B: Layout, hi: nat, L: FreeLists, a: nat, w: nat, j: nat)
    requires Tiles(B, FIRST_BLOCK, hi) && a in B && B[a].free && 4 <= w && w + 4 <= B[a].words && w % 2 == 0
    requires Listed(Frees(B), Classes(B), L, {}) && 2 <= j <= LAST_SLOT
    ensures a + w !in L[j]
  {
    SplitFacts(B, FIRST_BLOCK, hi, a, w);
    assert ListedIn(Frees(B), Classes(B), L[j], j, {});
    forall m | 0 <= m < |L[j]| ensures L[j][m] != a + w {
    }
  }

  lemma PlacedAt(B: Layout, L: FreeLists, a: nat, w: nat, j: nat)
    requires a in B && w <= B[a].words && j < |L|
    ensures PlacedLists(B, L, a, w)[j] ==
      if !Splits(B, a, w) then Without(L[j], a)
      else if Slot(B[a].words - w) == Slot(B[a].words) then Replace(L[j], a, a + w)
      else if j == Slot(B[a].words - w) then [a + w] + Without(Replace(L[j], a, a + w), a + w)
      else Without(Replace(L[j], a, a + w), a + w)
  {
  }

  lemma WithoutIs(s: seq<nat>, F: set<int>, k: nat)
    requires Lists(s, F) && k < |s|
    ensures Without(s, s[k]) == s[..k] + s[k + 1..]
  {
    WithoutRemoved(s, F, k);
  }

  lemma OwnOrder(B: Layout, F: set<int>, L: FreeLists, a: nat, w: nat, j: nat, k: nat)
    requires a in B && w <= B[a].words && j == Slot(B[a].words)
    requires Lists(L[j], F) && k < |L[j]| && L[j][k] == a && (Splits(B, a, w) ==> a + w !in L[j])
    ensures PlacedInClass(L[j], PlacedLists(B, L, a, w)[j], k, a, w, true,
      B[a].words >= w + 4 && Slot(B[a].words - w) == j)
  {
    PlacedAt(B, L, a, w, j);
    if !Splits(B, a, w) {
      WithoutIs(L[j], F, k);
    } else {
      ReplaceAt(L[j], k, a + w);
      RestGone(L[j], k, a + w);
    }
  }

  lemma IsIn(F: set<int>, cls: map<int, nat>, L: FreeLists, a: nat, j: nat)
    requires Listed(F, cls, L, {}) && 2 <= j <= LAST_SLOT && a in F && a in cls && cls[a] == j
    ensures a in L[j] && Lists(L[j], F)
  {
    assert (a as int) in F && IsListed(cls, L, a);
    assert ListedIn(F, cls, L[j], j, {});
  }

  lemma ClassOf(B: Layout, a: nat)
    requires a in B && B[a].free
    ensures a in Classes(B) && Classes(B)[a] == Slot(B[a].words)
  {
  }

  lemma UntouchedBut(s: seq<nat>, a: nat, b: nat)
    requires a !in s && b !in s
    ensures Without(s, a) == Replace(s, a, b) == Without(Replace(s, a, b), b) == s
  {
    WithoutAbsent(s, a);
    ReplaceAbsent(s, a);
    WithoutAbsent(s, b);
  }

  lemma RestGone(s: seq<nat>, k: nat, b: nat)
    requires k < |s| && b !in s
    ensures Without(s[k := b], b) == s[..k] + s[k + 1..]
  {
    WithoutAt(s[k := b], k);
  }

  lemma NotIn(F: set<int>, cls: map<int, nat>, L: FreeLists, a: nat, j: nat)
    requires Listed(F, cls, L, {}) && 2 <= j <= LAST_SLOT && a in cls && cls[a] != j
    ensures a !in L[j]
  {
    assert ListedIn(F, cls, L[j], j, {});
  }

  lemma OtherOrder(B: Layout, L: FreeLists, a: nat, w: nat, j: nat)
    requires a in B && w <= B[a].words && 2 <= j <= LAST_SLOT && j != Slot(B[a].words)
    requires a !in L[j] && (Splits(B, a, w) ==> a + w !in L[j])
    ensures PlacedInClass(L[j], PlacedLists(B, L, a, w)[j], 0, a, w, false,
      B[a].words >= w + 4 && Slot(B[a].words - w) == j)
  {
    PlacedAt(B, L, a, w, j);
    if Splits(B, a, w) {
      UntouchedBut(L[j], a, a + w);
    } else {
      WithoutAbsent(L[j], a);
    }
  }

  /** Writing words of a free block, except its links, disturbs no list. */
  lemma InBlockWrites(h: seq<Word>, h1: seq<Word>, B: Layout, hi: nat, a: nat, cls: map<int, nat>, L: FreeLists,
                      out: set<int>, W: set<int>)
    requires Tiles(B, FIRST_BLOCK, hi) && a in B && B[a].free
    requires Wired(h, Frees(B), cls, L, out) && Wrote(h, h1, W)
    requires forall x | x in W :: x == a || a + 3 <= x < End(B, a)
    ensures Shape(h1, Frees(B), cls, L, out) && Parity(h1, Frees(B) - {a})
    ensures forall f | f in Frees(B) :: f + 2 < |h1| && h1[f + 1] == h[f + 1] && h1[f + 2] == h[f + 2]
  {
    var F := Frees(B);
    assert BlockFits(B, FIRST_BLOCK, hi, a);
    forall f | f in F
      ensures f + 2 < |h1| && h1[f + 1] == h[f + 1] && h1[f + 2] == h[f + 2] && (f != a ==> h1[f] == h[f])
    {
      assert Apart(B, f, a) && BlockFits(B, FIRST_BLOCK, hi, f);
    }
    forall j | 2 <= j <= LAST_SLOT ensures Chain(h1, SlotHead(j), L[j]) {
      assert ListedIn(F, cls, L[j], j, out) && Chain(h, SlotHead(j), L[j]);
      ChainFrame(h, h1, SlotHead(j), L[j]);
    }
  }

  /** Allocating a whole block: its tags are marked, then it leaves its list. */
  lemma PlaceWhole(h: seq<Word>, h1: seq<Word>, h2: seq<Word>, B: Layout, hi: nat, L: FreeLists, i: nat, k: nat, a: nat)
    requires Tiles(B, FIRST_BLOCK, hi) && a in B && B[a].free
    requires Wired(h, Frees(B), Classes(B), L, {}) && 2 <= i <= LAST_SLOT && k < |L[i]| && L[i][k] == a
    requires Wrote(h, h1, {a, End(B, a) - 1}) && Unlinked(h1, h2, SlotHead(i), L[i], k)
    ensures var C := Mark(B, a, false);
      Wired(h2, Frees(C), Classes(C), Drop(L, a), {}) && Frame(h1, h2, LAST_SLOT, Frees(C), {})
  {
    var C, F := Mark(B, a, false), Frees(B);
    MarkFacts(B, FIRST_BLOCK, hi, a);
    InBlockWrites(h, h1, B, hi, a, Classes(B), L, {}, {a, End(B, a) - 1});
    RemoveShape(h1, h2, F, Classes(B), L, {}, i, k);
    ParityFrame(h1, h2, F, F - {a});
    assert ({} + {a as int}) * Frees(C) == {};
    RewireShape(h2, F, Frees(C), Classes(B), Classes(C), Drop(L, a), {} + {a as int});
  }

  lemma PlaceWholeDone(h: seq<Word>, h1: seq<Word>, h2: seq<Word>, B: Layout, hi: nat, a: nat)
    requires Tiles(B, FIRST_BLOCK, hi) && hi <= |h| && Tagged(h, B) && a in B && B[a].free
    requires Wrote(h, h1, {a, End(B, a) - 1}) && TaggedAt(h1, Mark(B, a, false), a)
    requires Frame(h1, h2, LAST_SLOT, Frees(Mark(B, a, false)), {})
    ensures Tiles(Mark(B, a, false), FIRST_BLOCK, hi) && Tagged(h2, Mark(B, a, false)) && KeepsLive(h, h2, B)
    ensures forall i | 0 <= i < FIRST_BLOCK && i < |h| && !(2 <= i <= LAST_SLOT) :: h2[i] == h[i]
  {
    MarkFacts(B, FIRST_BLOCK, hi, a);
    PlaceDone(h, h1, h2, B, Mark(B, a, false), FIRST_BLOCK, hi, LAST_SLOT, a, {a, End(B, a) - 1});
  }

  /** Splitting: the remainder, tagged free, takes the place of the block in its list. */
  lemma PlaceSplit(h: seq<Word>, h1: seq<Word>, h2: seq<Word>, B: Layout, hi: nat, L: FreeLists, i: nat, k: nat,
                   a: nat, w: nat)
    requires Tiles(B, FIRST_BLOCK, hi) && hi <= |h| && a in B && B[a].free
    requires Wired(h, Frees(B), Classes(B), L, {}) && 2 <= i <= LAST_SLOT && k < |L[i]| && L[i][k] == a
    requires 4 <= w && w % 2 == 0 && w + 4 <= B[a].words && SplitTagged(h, h1, B, a, w)
    requires Replaced(h1, h2, SlotHead(i), L[i], k, a + w)
    ensures Wired(h2, Frees(Split(B, a, w)), Classes(B)[(a + w) as int := i], Substitute(L, a, a + w), {})
    ensures Frame(h1, h2, LAST_SLOT, Frees(Split(B, a, w)), {})
  {
    var F, G, b := Frees(B), Frees(Split(B, a, w)), a + w;
    SplitFacts(B, FIRST_BLOCK, hi, a, w);
    InBlockWrites(h, h1, B, hi, a, Classes(B), L, {}, {a, a + w - 1, a + w, End(B, a) - 1});
    SubstituteShape(h1, h2, F, Classes(B), L, i, k, b);
    SplitParity(h1, B, hi, a, w);
    ParityFrame(h1, h2, G, G);
  }

  lemma SplitParity(h1: seq<Word>, B: Layout, hi: nat, a: nat, w: nat)
    requires Tiles(B, FIRST_BLOCK, hi) && hi <= |h1| && a in B && B[a].free
    requires 4 <= w && w % 2 == 0 && w + 4 <= B[a].words
    requires Parity(h1, Frees(B) - {a}) && a + w < |h1| && h1[a + w] == Tag(Block(B[a].words - w, true))
    ensures Parity(h1, Frees(Split(B, a, w)))
  {
    SplitFacts(B, FIRST_BLOCK, hi, a, w);
    ModTwo(h1[a + w], 2 * (B[a].words - w), 0);
  }

  lemma PlaceSplitDone(h: seq<Word>, h1: seq<Word>, h2: seq<Word>, B: Layout, hi: nat, a: nat, w: nat)
    requires Tiles(B, FIRST_BLOCK, hi) && hi <= |h| && Tagged(h, B) && a in B && B[a].free
    requires 4 <= w && w % 2 == 0 && w + 4 <= B[a].words && SplitTagged(h, h1, B, a, w)
    requires Frame(h1, h2, LAST_SLOT, Frees(Split(B, a, w)), {})
    ensures Tiles(Split(B, a, w), FIRST_BLOCK, hi) && Tagged(h2, Split(B, a, w)) && KeepsLive(h, h2, B)
    ensures forall i | 0 <= i < FIRST_BLOCK && i < |h| && !(2 <= i <= LAST_SLOT) :: h2[i] == h[i]
  {
    SplitFacts(B, FIRST_BLOCK, hi, a, w);
    PlaceDone(h, h1, h2, B, Split(B, a, w), FIRST_BLOCK, hi, LAST_SLOT, a, {a, a + w - 1, a + w, End(B, a) - 1});
  }

  lemma ShrinkKeeps(h: seq<Word>, h1: seq<Word>, h2: seq<Word>, B: Layout, a: nat, w: nat)
    requires a in B && 4 <= w && w + 4 <= B[a].words && !B[a].free && a + w !in B
    requires KeepsOthers(h, h1, B, a) && KeepsRange(h, h1, a + 1, a + w - 1) && KeepsLive(h1, h2, Split(B, a, w))
    ensures KeepsOthers(h, h2, B, a) && KeepsRange(h, h2, a + 1, a + w - 1)
  {
    var C := Split(B, a, w);
    assert KeepsRange(h1, h2, a, End(C, a));
    forall c | c in B && c != a && !B[c].free ensures KeepsRange(h, h2, c, End(B, c)) {
      assert KeepsRange(h, h1, c, End(B, c)) && KeepsRange(h1, h2, c, End(C, c));
    }
  }

  // ---- Searching -------------------------------------------------------------

  // a is the first block of s with at least `size` bytes.
  ghost predicate FirstFit(B: Layout, s: seq<nat>, size: nat, a: nat) {
    exists k: nat :: FitsAt(B, s, size, k) && s[k] == a
  }

  ghost predicate FitsAt(B: Layout, s: seq<nat>, size: nat, k: nat) {
    && k < |s|
    && (forall j | 0 <= j <= k :: s[j] in B)
    && 4 * B[s[k]].words >= size
    && forall j | 0 <= j < k :: 4 * B[s[j]].words < size
  }

  /** a is the first fitting block of the lowest class that has one. */
  ghost predicate BestFit(B: Layout, L: FreeLists, a: nat, size: nat) {
    && Fits(B, a, size)
    && FirstFit(B, L[Slot(B[a].words)], size, a)
    && forall b | Fits(B, b, size) :: Slot(B[a].words) <= Slot(B[b].words)
  }

  /** In bytes: a is in class i, the first fitting block of its list, and no fitting block is in a lower class. */
  ghost predicate LowestFit(B: Layout, L: FreeLists, a: nat, size: nat, i: nat) {
    && Fits(B, a, size) && InClass(i, 4 * B[a].words) && FirstFit(B, L[HEAP_PTR + i], size, a)
    && forall b, j {:trigger Fits(B, b, size), InClass(j, 4 * B[b].words)} | Fits(B, b, size) ::
         InClass(j, 4 * B[b].words) ==> i <= j
  }

  ghost predicate HasLowestFit(B: Layout, L: FreeLists, a: nat, size: nat) {
    exists i: nat {:trigger LowestFit(B, L, a, size, i)} :: LowestFit(B, L, a, size, i)
  }

  // M is L with a in front of the list for blocks of this many bytes.
  ghost predicate ListedFirst(L: FreeLists, M: FreeLists, bytes: nat, a: nat) {
    forall i {:trigger M[i]} | 2 <= i <= LAST_SLOT ::
      M[i] == if InClass(i - 1, bytes) then [a] + L[i] else L[i]
  }

  lemma PushByClass(L: FreeLists, i: nat, bytes: nat, a: nat)
    requires i == HEAP_PTR + GetSegListIndex(bytes)
    ensures ListedFirst(L, PushFront(L, i, a), bytes, a)
  {
    var M := PushFront(L, i, a);
    forall j | 2 <= j <= LAST_SLOT ensures M[j] == if InClass(j - 1, bytes) then [a] + L[j] else L[j] {
      ClassBySize(bytes, j - 1);
    }
  }

  lemma BestIsLowest(B: Layout, L: FreeLists, a: nat, size: nat, i: nat)
    requires BestFit(B, L, a, size) && B[a].words >= 0 && i == Slot(B[a].words) - HEAP_PTR
    requires forall b | b in B :: B[b].words >= 0
    ensures LowestFit(B, L, a, size, i)
  {
    ClassBySize(4 * B[a].words, i);
    forall b, j | Fits(B, b, size) && InClass(j, 4 * B[b].words) ensures i <= j {
      ClassBySize(4 * B[b].words, j);
    }
  }

  /** A class below the request's own holds only smaller blocks, even though the index is taken of 32 bits. */
  lemma LowClassTooSmall(B: Layout, hi: nat, a: nat, size: nat)
    requires Tiles(B, FIRST_BLOCK, hi) && hi <= MAX_WORDS && Fits(B, a, size)
    ensures HEAP_PTR + GetSegListIndex(size % WORD_LIMIT) <= Slot(B[a].words)
  {
    assert BlockFits(B, FIRST_BLOCK, hi, a);
  }

  // ---- Growing the heap ------------------------------------------------------

  lemma ExtendTags(h: seq<Word>, h1: seq<Word>, B: Layout, hi: nat, w: nat)
    requires Tiles(B, FIRST_BLOCK, hi) && hi + w <= |h| && Tagged(h, B) && w >= 4 && w % 2 == 0
    requires Wrote(h, h1, {hi, hi + w - 1}) && h1[hi] == h1[hi + w - 1] == 4 * w
    ensures Tagged(h1, B[hi := Block(w, true)]) && KeepsLive(h, h1, B)
  {
    var C := B[hi := Block(w, true)];
    forall c | c in B ensures KeepsRange(h, h1, c, End(B, c)) && TaggedAt(h1, C, c) {
      assert BlockFits(B, FIRST_BLOCK, hi, c) && TaggedAt(h, B, c);
    }
    assert TaggedAt(h1, C, hi);
  }

  /** Tagging the new words as one free block leaves everything else as it was. */
  lemma ExtendWired(h: seq<Word>, h1: seq<Word>, B: Layout, hi: nat, w: nat, L: FreeLists)
    requires Tiles(B, FIRST_BLOCK, hi) && hi + w <= |h| && Tagged(h, B) && Wired(h, Frees(B), Classes(B), L, {})
    requires w >= 4 && w % 2 == 0 && hi % 2 == 1
    requires Wrote(h, h1, {hi, hi + w - 1}) && h1[hi] == h1[hi + w - 1] == 4 * w
    ensures var C := B[hi := Block(w, true)];
      && hi !in B && Tiles(C, FIRST_BLOCK, hi + w) && Tagged(h1, C)
      && Wired(h1, Frees(C), Classes(C), L, {hi})
    ensures KeepsLive(h, h1, B)
  {
    var C := B[hi := Block(w, true)];
    ExtendTiles(B, FIRST_BLOCK, hi, w);
    ExtendTags(h, h1, B, hi, w);
    FreesSparse(C, FIRST_BLOCK, hi + w);
    ExtendShape(h, h1, B, hi, w, L);
    assert Frees(C) == Frees(B) + {hi};
    ModTwo(h1[hi], 2 * w, 0);
    UnlistedBlock(B, C, L, hi);
  }

  lemma ExtendShape(h: seq<Word>, h1: seq<Word>, B: Layout, hi: nat, w: nat, L: FreeLists)
    requires Tiles(B, FIRST_BLOCK, hi) && hi + w <= |h| && w >= 4 && Wired(h, Frees(B), Classes(B), L, {})
    requires Wrote(h, h1, {hi, hi + w - 1})
    ensures Linked(h1, L) && Parity(h1, Frees(B))
  {
    forall f | f in Frees(B) ensures f + 2 < hi {
      assert BlockFits(B, FIRST_BLOCK, hi, f);
    }
    forall j | 2 <= j <= LAST_SLOT ensures Chain(h1, SlotHead(j), L[j]) {
      assert ListedIn(Frees(B), Classes(B), L[j], j, {}) && Chain(h, SlotHead(j), L[j]);
      ChainFrame(h, h1, SlotHead(j), L[j]);
    }
  }

  /** A new free block that is in no list yet. */
  lemma UnlistedBlock(B: Layout, C: Layout, L: FreeLists, b: nat)
    requires Listed(Frees(B), Classes(B), L, {}) && b !in Frees(B) && Frees(C) == Frees(B) + {b}
    requires forall a | a in B && B[a].free :: a in C && C[a] == B[a]
    ensures Listed(Frees(C), Classes(C), L, {b})
  {
    forall j | 2 <= j <= LAST_SLOT ensures ListedIn(Frees(C), Classes(C), L[j], j, {b}) {
      assert ListedIn(Frees(B), Classes(B), L[j], j, {});
    }
    forall a | a in Frees(C) && a !in {b as int} ensures IsListed(Classes(C), L, a) {
      assert a in Frees(B);
      assert IsListed(Classes(B), L, a);
    }
  }

  // ---- Freeing and shrinking live blocks -------------------------------------

  /** Writing words of a live block disturbs no list and no other live block. */
  lemma LiveBlockWrites(h: seq<Word>, h1: seq<Word>, B: Layout, hi: nat, a: nat, L: FreeLists, W: set<int>)
    requires Tiles(B, FIRST_BLOCK, hi) && hi <= |h| && a in B && !B[a].free && Wired(h, Frees(B), Classes(B), L, {})
    requires Wrote(h, h1, W) && forall x | x in W :: a <= x < End(B, a)
    ensures Linked(h1, L) && Parity(h1, Frees(B))
    ensures KeepsOthers(h, h1, B, a)
  {
    assert BlockFits(B, FIRST_BLOCK, hi, a);
    forall f | f in Frees(B) ensures f + 2 < |h1| && h1[f] == h[f] && h1[f + 1] == h[f + 1] && h1[f + 2] == h[f + 2] {
      assert Apart(B, f, a) && BlockFits(B, FIRST_BLOCK, hi, f);
    }
    forall j | 2 <= j <= LAST_SLOT ensures Chain(h1, SlotHead(j), L[j]) {
      assert ListedIn(Frees(B), Classes(B), L[j], j, {}) && Chain(h, SlotHead(j), L[j]);
      ChainFrame(h, h1, SlotHead(j), L[j]);
    }
    forall c | c in B && c != a && !B[c].free ensures KeepsRange(h, h1, c, End(B, c)) {
      assert Apart(B, c, a) && BlockFits(B, FIRST_BLOCK, hi, c);
    }
  }

  /** Marking a live block free, before it is coalesced and listed. */
  lemma FreeWired(h: seq<Word>, h1: seq<Word>, B: Layout, hi: nat, a: nat, L: FreeLists)
    requires Tiles(B, FIRST_BLOCK, hi) && hi <= |h| && Tagged(h, B) && a in B && !B[a].free
    requires Wired(h, Frees(B), Classes(B), L, {})
    requires Wrote(h, h1, {a, End(B, a) - 1}) && TaggedAt(h1, Mark(B, a, true), a)
    ensures var C := Mark(B, a, true);
      && Tiles(C, FIRST_BLOCK, hi) && Tagged(h1, C) && Wired(h1, Frees(C), Classes(C), L, {a})
      && KeepsLive(h, h1, C)
  {
    var C := Mark(B, a, true);
    MarkTiles(B, FIRST_BLOCK, hi, a, true);
    assert BlockFits(B, FIRST_BLOCK, hi, a);
    LiveBlockWrites(h, h1, B, hi, a, L, {a, End(B, a) - 1});
    CutTagged(h, h1, B, C, FIRST_BLOCK, hi, a);
    assert Frees(C) == Frees(B) + {a};
    FreesSparse(C, FIRST_BLOCK, hi);
    UnlistedBlock(B, C, L, a);
    ModTwo(h1[a], 2 * B[a].words, 0);
    forall c | c in C && !C[c].free ensures KeepsRange(h, h1, c, End(C, c)) {
      assert KeepsRange(h, h1, c, End(B, c));
    }
  }

  // C and M are what cutting live block a of B down to w words, and freeing the tail, leaves behind.
  ghost predicate Shrunk(B: Layout, L: FreeLists, C: Layout, M: FreeLists, hi: nat, a: nat, w: nat) {
    && a in B && w + 4 <= B[a].words
    && Merged(Split(B, a, w), L, C, M, hi, a + w)
    && Live(C) == Live(B)[a := w - 2]
  }

  // The same when there may be no tail.
  ghost predicate Trimmed(B: Layout, L: FreeLists, C: Layout, M: FreeLists, hi: nat, a: nat, w: nat) {
    && a in B && !B[a].free
    && (if w == B[a].words then C == B && M == L else Shrunk(B, L, C, M, hi, a, w))
    && Live(C) == Live(B)[a := w - 2]
  }

  lemma TrimmedNothing(B: Layout, L: FreeLists, hi: nat, a: nat)
    requires a in B && !B[a].free
    ensures Trimmed(B, L, B, L, hi, a, B[a].words)
  {
    assert Live(B) == Live(B)[a := B[a].words - 2];
  }

  lemma LiveSplit(B: Layout, a: nat, w: nat)
    requires a in B && !B[a].free && 4 <= w && w + 4 <= B[a].words && a + w !in B
    ensures Live(Split(B, a, w)) == Live(B)[a := w - 2]
  {
  }

  lemma ShrunkIs(B: Layout, L: FreeLists, C: Layout, M: FreeLists, hi: nat, a: nat, w: nat)
    requires a in B && !B[a].free && 4 <= w && w + 4 <= B[a].words && a + w !in B
    requires Tiles(Split(B, a, w), FIRST_BLOCK, hi) && Merged(Split(B, a, w), L, C, M, hi, a + w)
    ensures Shrunk(B, L, C, M, hi, a, w)
  {
    LiveCoalesce(Split(B, a, w), FIRST_BLOCK, hi, a + w);
    LiveSplit(B, a, w);
  }

  lemma ShrinkDone(h: seq<Word>, h1: seq<Word>, h2: seq<Word>, B: Layout, L: FreeLists, C: Layout, M: FreeLists,
                   hi: nat, a: nat, w: nat)
    requires a in B && !B[a].free && 4 <= w && w + 4 <= B[a].words && a + w !in B
    requires Tiles(Split(B, a, w), FIRST_BLOCK, hi) && Merged(Split(B, a, w), L, C, M, hi, a + w)
    requires KeepsOthers(h, h1, B, a) && KeepsRange(h, h1, a + 1, a + w - 1) && KeepsLive(h1, h2, Split(B, a, w))
    ensures Shrunk(B, L, C, M, hi, a, w)
    ensures KeepsOthers(h, h2, B, a) && KeepsRange(h, h2, a + 1, a + w - 1)
  {
    ShrunkIs(B, L, C, M, hi, a, w);
    ShrinkKeeps(h, h1, h2, B, a, w);
  }

  /** Cutting the tail off a live block, before it is coalesced and listed. */
  lemma ShrinkWired(h: seq<Word>, h1: seq<Word>, B: Layout, hi: nat, a: nat, w: nat, L: FreeLists)
    requires Tiles(B, FIRST_BLOCK, hi) && hi <= |h| && Tagged(h, B) && a in B && !B[a].free
    requires 4 <= w && w % 2 == 0 && w + 4 <= B[a].words && Wired(h, Frees(B), Classes(B), L, {})
    requires SplitTagged(h, h1, B, a, w)
    ensures var C := Split(B, a, w);
      && a + w !in B && Tiles(C, FIRST_BLOCK, hi) && Tagged(h1, C)
      && Wired(h1, Frees(C), Classes(C), L, {a + w})
    ensures KeepsOthers(h, h1, B, a)
    ensures KeepsRange(h, h1, a + 1, a + w - 1)
  {
    var C := Split(B, a, w);
    var W: set<int> := {a, a + w - 1, a + w, End(B, a) - 1};
    SplitTiles(B, FIRST_BLOCK, hi, a, w);
    assert BlockFits(B, FIRST_BLOCK, hi, a);
    LiveBlockWrites(h, h1, B, hi, a, L, W);
    CutTagged(h, h1, B, C, FIRST_BLOCK, hi, a);
    assert Frees(C) == Frees(B) + {a + w};
    FreesSparse(C, FIRST_BLOCK, hi);
    UnlistedBlock(B, C, L, a + w);
    ModTwo(h1[a + w], 2 * (B[a].words - w), 0);
  }

  lemma EmptyWired(h: seq<Word>, L: FreeLists)
    requires FIRST_BLOCK <= |h| && h[EPILOGUE] == 1 && forall i | 2 <= i <= LAST_SLOT :: h[i] == EPILOGUE && L[i] == []
    ensures Wired(h, Frees(map[]), Classes(map[]), L, {})
  {
  }

  // ---- What place reads ------------------------------------------------------

  // Where free block a is listed, and how far it extends.
  lemma WholeReads(h: seq<Word>, B: Layout, hi: nat, L: FreeLists, a: nat) returns (i: nat, k: nat)
    requires Tiles(B, FIRST_BLOCK, hi) && hi <= |h| <= MAX_WORDS && a in B && B[a].free
    requires Wired(h, Frees(B), Classes(B), L, {})
    ensures 2 <= i <= LAST_SLOT && k < |L[i]| && L[i][k] == a && i == Slot(B[a].words)
    ensures FIRST_BLOCK <= a && a + 4 <= End(B, a) <= |h| && B[a].words % 2 == 0
  {
    i, k := RemoveReads(h, Frees(B), Classes(B), L, {}, a);
    assert BlockFits(B, FIRST_BLOCK, hi, a);
  }

  // The links around block a still read the same once its tags are rewritten.
  lemma PlaceReads(h: seq<Word>, h1: seq<Word>, B: Layout, hi: nat, L: FreeLists, i: nat, k: nat, a: nat, W: set<int>)
    requires Tiles(B, FIRST_BLOCK, hi) && a in B && B[a].free && Wired(h, Frees(B), Classes(B), L, {})
    requires 2 <= i <= LAST_SLOT && k < |L[i]| && L[i][k] == a
    requires Wrote(h, h1, W) && forall x | x in W :: x == a || a + 3 <= x < End(B, a)
    ensures UnlinkReads(h1, L[i], i, k)
  {
    InBlockWrites(h, h1, B, hi, a, Classes(B), L, {}, W);
    var j, m := RemoveReads(h1, Frees(B), Classes(B), L, {}, a);
    assert ListedIn(Frees(B), Classes(B), L[i], i, {}) && ListedIn(Frees(B), Classes(B), L[j], j, {});
  }

  // The remainder of block a is clear of the neighbours of a in its list.
  lemma RestIsFar(B: Layout, hi: nat, L: FreeLists, i: nat, k: nat, a: nat, b: nat)
    requires Tiles(B, FIRST_BLOCK, hi) && a in B && a + 4 <= b && b + 4 <= End(B, a)
    requires Listed(Frees(B), Classes(B), L, {}) && 2 <= i <= LAST_SLOT && k < |L[i]| && L[i][k] == a
    ensures k > 0 ==> ClearBy(L[i][k - 1], a, b)
    ensures k + 1 < |L[i]| ==> ClearBy(L[i][k + 1], a, b)
  {
    assert ListedIn(Frees(B), Classes(B), L[i], i, {});
    if k > 0 {
      assert Apart(B, L[i][k - 1], a) && BlockFits(B, FIRST_BLOCK, hi, L[i][k - 1]);
    }
    if k + 1 < |L[i]| {
      assert Apart(B, L[i][k + 1], a) && BlockFits(B, FIRST_BLOCK, hi, L[i][k + 1]);
    }
  }

  lemma SplitReady(h: seq<Word>, h1: seq<Word>, B: Layout, hi: nat, L: FreeLists, i: nat, k: nat, a: nat, w: nat)
    requires Tiles(B, FIRST_BLOCK, hi) && a in B && B[a].free && Wired(h, Frees(B), Classes(B), L, {})
    requires 2 <= i <= LAST_SLOT && k < |L[i]| && L[i][k] == a
    requires 4 <= w && w % 2 == 0 && w + 4 <= B[a].words && SplitTagged(h, h1, B, a, w)
    ensures UnlinkReads(h1, L[i], i, k)
    ensures k > 0 ==> ClearBy(L[i][k - 1], a, a + w)
    ensures k + 1 < |L[i]| ==> ClearBy(L[i][k + 1], a, a + w)
  {
    PlaceReads(h, h1, B, hi, L, i, k, a, {a, a + w - 1, a + w, End(B, a) - 1});
    RestIsFar(B, hi, L, i, k, a, a + w);
  }

  lemma SplitDone(h: seq<Word>, h1: seq<Word>, h2: seq<Word>, B: Layout, hi: nat, L: FreeLists, i: nat, k: nat, a: nat,
                  w: nat)
    requires Tiles(B, FIRST_BLOCK, hi) && hi <= |h| && Tagged(h, B) && a in B && B[a].free
    requires Wired(h, Frees(B), Classes(B), L, {}) && 2 <= i <= LAST_SLOT && k < |L[i]| && L[i][k] == a
    requires 4 <= w && w % 2 == 0 && w + 4 <= B[a].words && SplitTagged(h, h1, B, a, w)
    requires Replaced(h1, h2, SlotHead(i), L[i], k, a + w)
    ensures a + w !in B && Tiles(Split(B, a, w), FIRST_BLOCK, hi) && Tagged(h2, Split(B, a, w))
    ensures Wired(h2, Frees(Split(B, a, w)), Classes(B)[(a + w) as int := i], Substitute(L, a, a + w), {})
    ensures KeepsLive(h, h2, B)
    ensures forall i | 0 <= i < FIRST_BLOCK && i < |h| && !(2 <= i <= LAST_SLOT) :: h2[i] == h[i]
  {
    PlaceSplit(h, h1, h2, B, hi, L, i, k, a, w);
    SplitFacts(B, FIRST_BLOCK, hi, a, w);
    PlaceSplitDone(h, h1, h2, B, hi, a, w);
  }

  lemma RelocateReady(h: seq<Word>, h1: seq<Word>, B: Layout, hi: nat, cls: map<int, nat>, L: FreeLists, a: nat)
    requires Tiles(B, FIRST_BLOCK, hi) && Tagged(h, B) && a in B && B[a].free
    requires Frame(h, h1, LAST_SLOT, Frees(B), {}) && Wired(h1, Frees(B), cls, L, {} + {a as int})
    requires forall b | b in Frees(B) && b != a :: b in cls && cls[b] == Classes(B)[b]
    ensures Wired(h1, Frees(B), Classes(B), L, {} + {a as int})
    ensures a < |h1| && BlockSize(h1[a]) == 4 * B[a].words
  {
    var out := {} + {a as int};
    Rewire(h1, Frees(B), Frees(B), cls, Classes(B), L, out);
    assert out * Frees(B) == out;
    FrameTagged(h, h1, B, FIRST_BLOCK, hi, LAST_SLOT, Frees(B));
    NeighbourTags(h1, B, FIRST_BLOCK, hi, a);
  }

  lemma RelocateDone(h: seq<Word>, h1: seq<Word>, h2: seq<Word>, B: Layout, hi: nat)
    requires Tiles(B, FIRST_BLOCK, hi) && hi <= |h| && Tagged(h, B)
    requires Frame(h, h1, LAST_SLOT, Frees(B), {}) && Frame(h1, h2, LAST_SLOT, Frees(B), {})
    ensures Tagged(h2, B) && KeepsLive(h, h2, B)
    ensures forall i | 0 <= i < FIRST_BLOCK && i < |h| && !(2 <= i <= LAST_SLOT) :: h2[i] == h[i]
  {
    FrameTrans(h, h1, h2, LAST_SLOT, Frees(B), Frees(B), {});
    FrameTagged(h, h2, B, FIRST_BLOCK, hi, LAST_SLOT, Frees(B));
    FrameLive(h, h2, B, FIRST_BLOCK, hi, LAST_SLOT, Frees(B), {});
    FreesSparse(B, FIRST_BLOCK, hi);
  }
}
