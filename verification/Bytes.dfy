/** Words as four bytes each, least significant first, and memcpy over them. */
module Bytes {
  import opened Words
  import C = CInts

  function Scale(k: nat): (r: nat)
    ensures r > 0
  {
    if k == 0 then 1 else if k == 1 then 0x100 else if k == 2 then 0x1_0000 else if k == 3 then 0x100_0000
    else WORD_LIMIT
  }

  // Byte k of a word.
  function Byte(w: Word, k: nat): nat {
    w / Scale(k) % 0x100
  }

  /** The four bytes make up the word. */
  lemma WordIsBytes(w: Word)
    ensures forall k {:trigger Byte(w, k)} | 0 <= k < 4 :: Byte(w, k) < 0x100
    ensures w == Byte(w, 0) + 0x100 * Byte(w, 1) + 0x1_0000 * Byte(w, 2) + 0x100_0000 * Byte(w, 3)
  {
    assert w / 0x100 / 0x100 == w / 0x1_0000 && w / 0x1_0000 / 0x100 == w / 0x100_0000;
    assert w / 0x100_0000 < 0x100;
  }

  /** The lowest k of them make up what is left of it modulo 256^k. */
  lemma LowBytes(w: Word, k: nat)
    requires 1 <= k <= 3
    ensures w % C.Pow2(8 * k) == Byte(w, 0) + (if k > 1 then 0x100 * Byte(w, 1) else 0)
                                 + (if k > 2 then 0x1_0000 * Byte(w, 2) else 0)
  {
    WordIsBytes(w);
    ScaleIs(k);
    var b0, b1, b2, b3 := Byte(w, 0), Byte(w, 1), Byte(w, 2), Byte(w, 3);
    if k == 1 {
      assert w == 0x100 * (b1 + 0x100 * b2 + 0x1_0000 * b3) + b0;
    } else if k == 2 {
      assert w == 0x1_0000 * (b2 + 0x100 * b3) + (b0 + 0x100 * b1);
    } else {
      assert w == 0x100_0000 * b3 + (b0 + 0x100 * b1 + 0x1_0000 * b2);
    }
  }

  lemma ScaleIs(k: nat)
    requires k <= 3
    ensures Scale(k) == C.Pow2(8 * k)
  {
    C.Pow2Values();
  }

  // Byte j of the memory that starts at word p.
  function ByteAt(h: seq<Word>, p: nat, j: nat): nat
    requires p + j / 4 < |h|
  {
    Byte(h[p + j / 4], j % 4)
  }

  // The word that keeps the upper bytes of `to` and takes the lower k bytes of `from`.
  function Splice(to: Word, from: Word, k: nat): Word
    requires k <= 3
  {
    SpliceFits(to, from, k);
    to / Scale(k) * Scale(k) + from % Scale(k)
  }

  lemma SpliceFits(to: Word, from: Word, k: nat)
    requires k <= 3
    ensures 0 <= to / Scale(k) * Scale(k) + from % Scale(k) < WORD_LIMIT
  {
    var m := Scale(k);
    assert k == 1 ==> to / 0x100 <= 0xFF_FFFF;
    assert k == 2 ==> to / 0x1_0000 <= 0xFFFF;
    assert k == 3 ==> to / 0x100_0000 <= 0xFF;
  }

  lemma DivShift(c: int, d: int, s: int)
    requires s == 1 || s == 0x100 || s == 0x1_0000
    ensures (c * s + d) / s == c + d / s
  {
    var u, r := d / s, d % s;
    if s == 0x100 {
      assert c * s + d == 0x100 * (c + u) + r;
    } else if s == 0x1_0000 {
      assert c * s + d == 0x1_0000 * (c + u) + r;
    }
  }

  lemma ModShift(c: int, d: int)
    ensures (c * 0x100 + d) % 0x100 == d % 0x100
  {
    var u, r := d / 0x100, d % 0x100;
    assert c * 0x100 + d == 0x100 * (c + u) + r;
  }

  // Adding a multiple of Scale(k) does not reach the bytes below k.
  lemma HighPart(q: int, b: int, k: nat, i: nat)
    requires i < k <= 3
    ensures (q * Scale(k) + b) / Scale(i) % 0x100 == b / Scale(i) % 0x100
  {
    var t := if k == i + 1 then 1 else if k == i + 2 then 0x100 else 0x1_0000;
    assert q * Scale(k) == q * t * 0x100 * Scale(i);
    DivShift(q * t * 0x100, b, Scale(i));
    ModShift(q * t, b / Scale(i));
  }

  /** Below k, the bytes of a splice are those of its source. */
  lemma SpliceBytes(to: Word, from: Word, k: nat, i: nat)
    requires i < k <= 3
    ensures Byte(Splice(to, from, k), i) == Byte(from, i)
  {
    var q, p, b := to / Scale(k), from / Scale(k), from % Scale(k);
    assert from == p * Scale(k) + b;
    HighPart(q, b, k, i);
    HighPart(p, b, k, i);
  }

  /** From k on, they are those of the word it was put in. */
  lemma SpliceAbove(to: Word, from: Word, k: nat)
    requires 1 <= k <= 3
    ensures Splice(to, from, k) / C.Pow2(8 * k) == to / C.Pow2(8 * k)
  {
    ScaleIs(k);
    var q, b := to / Scale(k), from % Scale(k);
    if k == 1 {
      assert (q * 0x100 + b) / 0x100 == q;
    } else if k == 2 {
      assert (q * 0x1_0000 + b) / 0x1_0000 == q;
    } else {
      assert (q * 0x100_0000 + b) / 0x100_0000 == q;
    }
  }

  // The words of n bytes.
  function WordsOf(n: nat): (r: nat)
    ensures n <= 4 * r < n + 4
  {
    (n + 3) / 4
  }

  /** The first n bytes at q are what the first n bytes at p were. */
  ghost predicate KeepsContents(h: seq<Word>, h': seq<Word>, p: nat, q: nat, n: nat) {
    && p + WordsOf(n) <= |h| && q + WordsOf(n) <= |h'|
    && forall j: nat {:trigger ByteAt(h', q, j)} | j < n :: ByteAt(h', q, j) == ByteAt(h, p, j)
  }

  lemma KeepsContentsTrans(h0: seq<Word>, h1: seq<Word>, h2: seq<Word>, h3: seq<Word>, p: nat, q: nat, n: nat, m: nat)
    requires KeepsContents(h1, h2, p, q, n) && m <= n && |h0| == |h1| && |h3| == |h2|
    requires forall i {:trigger h1[i]} | p <= i < p + WordsOf(m) :: h1[i] == h0[i]
    requires forall i {:trigger h3[i]} | q <= i < q + WordsOf(m) :: h3[i] == h2[i]
    ensures KeepsContents(h0, h3, p, q, m)
  {
    forall j: nat {:trigger ByteAt(h3, q, j)} | j < m ensures ByteAt(h3, q, j) == ByteAt(h0, p, j) {
      assert ByteAt(h2, q, j) == ByteAt(h1, p, j);
    }
  }

  /** In words: the whole ones are equal, and the last one agrees in its lower bytes, as many as n has beyond them. */
  ghost predicate SameWords(h: seq<Word>, h': seq<Word>, p: nat, q: nat, n: nat)
    requires p + WordsOf(n) <= |h| && q + WordsOf(n) <= |h'|
  {
    && h'[q..q + n / 4] == h[p..p + n / 4]
    && (n % 4 > 0 ==> h'[q + n / 4] % C.Pow2(8 * (n % 4)) == h[p + n / 4] % C.Pow2(8 * (n % 4)))
  }

  // Above those, the last word keeps its bytes.
  ghost predicate KeepsAbove(h: seq<Word>, h': seq<Word>, q: nat, n: nat)
    requires q + WordsOf(n) <= |h| == |h'|
  {
    n % 4 > 0 ==> h'[q + n / 4] / C.Pow2(8 * (n % 4)) == h[q + n / 4] / C.Pow2(8 * (n % 4))
  }

  lemma EqualByte(h: seq<Word>, h': seq<Word>, p: nat, q: nat, n: nat, i: nat, k: nat)
    requires KeepsContents(h, h', p, q, n) && 4 * i + k < n && k < 4
    ensures Byte(h'[q + i], k) == Byte(h[p + i], k)
  {
    var j := 4 * i + k;
    assert j / 4 == i && j % 4 == k;
    assert ByteAt(h', q, j) == ByteAt(h, p, j);
  }

  lemma EqualWord(h: seq<Word>, h': seq<Word>, p: nat, q: nat, n: nat, i: nat)
    requires KeepsContents(h, h', p, q, n) && i < n / 4
    ensures h'[q + i] == h[p + i]
  {
    EqualByte(h, h', p, q, n, i, 0);
    EqualByte(h, h', p, q, n, i, 1);
    EqualByte(h, h', p, q, n, i, 2);
    EqualByte(h, h', p, q, n, i, 3);
    WordIsBytes(h'[q + i]);
    WordIsBytes(h[p + i]);
  }

  lemma EqualLow(h: seq<Word>, h': seq<Word>, p: nat, q: nat, n: nat)
    requires KeepsContents(h, h', p, q, n) && n % 4 > 0
    ensures h'[q + n / 4] % C.Pow2(8 * (n % 4)) == h[p + n / 4] % C.Pow2(8 * (n % 4))
  {
    var i, k := n / 4, n % 4;
    EqualByte(h, h', p, q, n, i, 0);
    if k > 1 {
      EqualByte(h, h', p, q, n, i, 1);
    }
    if k > 2 {
      EqualByte(h, h', p, q, n, i, 2);
    }
    LowBytes(h'[q + i], k);
    LowBytes(h[p + i], k);
  }

  lemma ContentsAreWords(h: seq<Word>, h': seq<Word>, p: nat, q: nat, n: nat)
    requires KeepsContents(h, h', p, q, n)
    ensures SameWords(h, h', p, q, n)
  {
    var u, v := h'[q..q + n / 4], h[p..p + n / 4];
    forall i {:trigger u[i]} | 0 <= i < n / 4 ensures u[i] == v[i] {
      EqualWord(h, h', p, q, n, i);
    }
    assert u == v;
    if n % 4 > 0 {
      EqualLow(h, h', p, q, n);
    }
  }

  // What memcpy leaves at dst: the whole words of the source, then a splice.
  ghost predicate Copied(h: seq<Word>, h': seq<Word>, dst: nat, src: nat, n: nat)
    requires dst + WordsOf(n) <= |h| == |h'| && src + WordsOf(n) <= |h|
  {
    var k := n / 4;
    && h'[dst..dst + k] == h[src..src + k]
    && (n % 4 != 0 ==> h'[dst + k] == Splice(h[dst + k], h[src + k], n % 4))
  }

  lemma CopiedBytes(h: seq<Word>, h': seq<Word>, dst: nat, src: nat, n: nat, j: nat)
    requires dst + WordsOf(n) <= |h| == |h'| && src + WordsOf(n) <= |h|
    requires Copied(h, h', dst, src, n) && j < n
    ensures ByteAt(h', dst, j) == ByteAt(h, src, j)
  {
    var k := n / 4;
    if j / 4 < k {
      assert h'[dst..dst + k][j / 4] == h[src..src + k][j / 4];
    } else {
      SpliceBytes(h[dst + k], h[src + k], n % 4, j % 4);
    }
  }

  method CopyWords(mem: array<Word>, dst: nat, src: nat, n: nat)
    requires dst + n <= mem.Length && src + n <= mem.Length && (dst + n <= src || src + n <= dst)
    modifies mem
    ensures forall i {:trigger mem[i]} | 0 <= i < mem.Length && !(dst <= i < dst + n) :: mem[i] == old(mem[i])
    ensures mem[dst..dst + n] == old(mem[src..src + n])
  {
    ghost var h := mem[..];
    for k := 0 to n
      invariant forall i {:trigger mem[i]} | 0 <= i < mem.Length && !(dst <= i < dst + k) :: mem[i] == h[i]
      invariant mem[dst..dst + k] == h[src..src + k]
    {
      mem[dst + k] := mem[src + k];
      assert h[src..src + (k + 1)] == h[src..src + k] + [h[src + k]];
    }
  }

  /** memcpy(dst, src, n) for regions that do not overlap. */
  method Memcpy(mem: array<Word>, dst: nat, src: nat, n: nat)
    requires dst + WordsOf(n) <= mem.Length && src + WordsOf(n) <= mem.Length
    requires dst + WordsOf(n) <= src || src + WordsOf(n) <= dst
    modifies mem
    ensures forall i {:trigger mem[i]} | 0 <= i < mem.Length && !(dst <= i < dst + WordsOf(n)) :: mem[i] == old(mem[i])
    ensures KeepsContents(old(mem[..]), mem[..], src, dst, n) && SameWords(old(mem[..]), mem[..], src, dst, n)
    ensures KeepsAbove(old(mem[..]), mem[..], dst, n)
  {
    ghost var h := mem[..];
    var k := n / 4;
    CopyWords(mem, dst, src, k);
    ghost var h1 := mem[..];
    if n % 4 != 0 {
      SpliceAbove(mem[dst + k], mem[src + k], n % 4);
      mem[dst + k] := Splice(mem[dst + k], mem[src + k], n % 4);
    }
    assert mem[..][dst..dst + k] == h1[dst..dst + k];
    forall j: nat | j < n ensures ByteAt(mem[..], dst, j) == ByteAt(h, src, j) {
      CopiedBytes(h, mem[..], dst, src, n, j);
    }
    ContentsAreWords(h, mem[..], src, dst, n);
  }
}
