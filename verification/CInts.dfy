/** C's operators on 32-bit words, over integers. A word stands for an unsigned int or for the bits of an int. */
module CInts {
  import opened Words

  function Pow2(n: nat): (p: nat)
    ensures p > 0
  {
    if n == 0 then 1 else 2 * Pow2(n - 1)
  }

  // The int that has these bits.
  function Signed(x: Word): int {
    if x < 0x8000_0000 then x else x - WORD_LIMIT
  }

  /** It is the one number from -2^31 to 2^31 - 1 that is the word modulo 2^32. */
  lemma SignedIs(x: Word, v: int)
    ensures Signed(x) == v <==> -0x8000_0000 <= v < 0x8000_0000 && (v - x) % 0x1_0000_0000 == 0
  {
  }

  function Wrap(x: int): Word {
    x % WORD_LIMIT
  }

  // ~x
  function Not(x: Word): Word {
    WORD_LIMIT - 1 - x
  }

  function Add(x: Word, y: Word): Word {
    Wrap(x + y)
  }

  // !x
  function Lnot(x: int): Word {
    if x == 0 then 1 else 0
  }

  // x & y
  function And(x: nat, y: nat): (r: nat)
    ensures r <= x && r <= y
  {
    if x == 0 || y == 0 then 0 else 2 * And(x / 2, y / 2) + if x % 2 == 1 && y % 2 == 1 then 1 else 0
  }

  // x | y
  function Or(x: nat, y: nat): nat
    decreases x + y
  {
    if x == 0 && y == 0 then 0 else 2 * Or(x / 2, y / 2) + if x % 2 == 1 || y % 2 == 1 then 1 else 0
  }

  // x >> n, for an unsigned or non-negative x
  function Shr(x: nat, n: nat): (r: nat)
    ensures r <= x
  {
    if n == 0 then x else Shr(x / 2, n - 1)
  }

  // x << n
  function Shl(x: Word, n: nat): Word {
    Wrap(x * Pow2(n))
  }

  lemma Pow2Values()
    ensures Pow2(1) == 2 && Pow2(2) == 4 && Pow2(4) == 16 && Pow2(8) == 0x100 && Pow2(16) == 0x1_0000
    ensures Pow2(23) == 0x80_0000 && Pow2(24) == 0x100_0000 && Pow2(31) == 0x8000_0000 && Pow2(32) == WORD_LIMIT
  {
    Pow2Add(8, 8);
    Pow2Add(16, 8);
    Pow2Add(16, 16);
    assert Pow2(24) == 2 * Pow2(23) && Pow2(32) == 2 * Pow2(31);
  }

  lemma {:induction false} Pow2Add(a: nat, b: nat)
    ensures Pow2(a + b) == Pow2(a) * Pow2(b)
  {
    if a > 0 {
      Pow2Add(a - 1, b);
      assert Pow2(a + b) == 2 * Pow2((a - 1) + b);
    }
  }

  lemma {:induction false} Pow2Monotone(a: nat, b: nat)
    requires a <= b
    ensures Pow2(a) <= Pow2(b)
  {
    if a < b {
      Pow2Monotone(a, b - 1);
    }
  }

  // ---- Laws of the operators --------------------------------------------------

  lemma {:induction false} AndSelf(x: nat)
    ensures And(x, x) == x
  {
    if x > 0 {
      AndSelf(x / 2);
    }
  }

  lemma {:induction false} AndComm(x: nat, y: nat)
    ensures And(x, y) == And(y, x)
  {
    if x > 0 && y > 0 {
      AndComm(x / 2, y / 2);
    }
  }

  lemma MulAtLeast(e: int, m: int)
    requires e >= 1 && m > 0
    ensures e * m >= m
  {
    var d := e - 1;
    assert d * m >= 0;
    assert e * m == d * m + m;
  }

  lemma Distribute(a: int, b: int, m: int)
    ensures (a - b) * m == a * m - b * m
  {
  }

  lemma ModIs(x: int, m: int, q: int, r: int)
    requires m > 0 && 0 <= r < m && x == q * m + r
    ensures x % m == r && x / m == q
  {
    var c, d := x / m, x % m;
    assert x == c * m + d;
    if c > q {
      Distribute(c, q, m);
      MulAtLeast(c - q, m);
    } else if c < q {
      Distribute(q, c, m);
      MulAtLeast(q - c, m);
    }
  }

  lemma ModDouble(x: nat, p: nat)
    requires p > 0
    ensures x % (2 * p) == 2 * (x / 2 % p) + x % 2
  {
    var q, r := x / 2 / p, x / 2 % p;
    assert x / 2 == q * p + r;
    assert q * (2 * p) == 2 * (q * p);
    ModIs(x, 2 * p, q, 2 * r + x % 2);
  }

  lemma AndOdd(x: nat, l: nat)
    ensures And(x, 2 * l + 1) == 2 * And(x / 2, l) + x % 2
  {
    assert (2 * l + 1) / 2 == l && (2 * l + 1) % 2 == 1;
  }

  /** Masking with k low ones keeps the remainder. */
  lemma {:induction false} AndLow(x: nat, k: nat)
    ensures And(x, Pow2(k) - 1) == x % Pow2(k)
  {
    if k > 0 {
      var p := Pow2(k - 1);
      AndLow(x / 2, k - 1);
      ModDouble(x, p);
      AndOdd(x, p - 1);
    }
  }

  lemma AndOne(x: nat)
    ensures And(1, x) == x % 2 && And(x, 1) == x % 2
  {
    AndComm(x, 1);
    if x > 0 {
      assert And(1, x) == 2 * And(0, x / 2) + if x % 2 == 1 then 1 else 0;
    }
  }

  lemma AndParity(x: nat, y: nat)
    ensures And(x, y) % 2 == if x % 2 == 1 && y % 2 == 1 then 1 else 0
  {
  }

  /** A test of one bit. */
  lemma {:induction false} AndBit(x: nat, k: nat)
    ensures And(Pow2(k), x) == if x / Pow2(k) % 2 == 1 then Pow2(k) else 0
  {
    if k == 0 {
      if x > 0 {
        assert And(1, x) == 2 * And(0, x / 2) + if x % 2 == 1 then 1 else 0;
      }
    } else if x > 0 {
      AndBit(x / 2, k - 1);
      DivDiv(x, Pow2(k - 1));
      assert Pow2(k) / 2 == Pow2(k - 1) && Pow2(k) % 2 == 0;
    } else {
      assert 0 / Pow2(k) == 0;
    }
  }

  lemma DivDiv(x: nat, p: nat)
    requires p > 0
    ensures x / (2 * p) == x / 2 / p
  {
    var q, r := x / 2 / p, x / 2 % p;
    assert x / 2 == q * p + r;
    assert q * (2 * p) == 2 * (q * p);
    ModIs(x, 2 * p, q, 2 * r + x % 2);
  }

  lemma {:induction false} OrZero(x: nat)
    ensures Or(x, 0) == x && Or(0, x) == x
  {
    if x > 0 {
      OrZero(x / 2);
    }
  }

  /** Bits that do not overlap are added. */
  lemma {:induction false} OrDisjoint(a: nat, b: nat, k: nat)
    requires b < Pow2(k)
    ensures Or(a * Pow2(k), b) == a * Pow2(k) + b
  {
    if k == 0 {
      OrZero(a);
    } else {
      var p := Pow2(k - 1);
      OrDisjoint(a, b / 2, k - 1);
      OrHalves(a * p, b);
      TwiceProduct(a, p);
    }
  }

  lemma TwiceProduct(a: nat, p: nat)
    ensures a * (2 * p) == 2 * (a * p)
  {
  }

  lemma OrHalves(h: nat, b: nat)
    ensures Or(2 * h, b) == 2 * Or(h, b / 2) + b % 2
  {
    if h == 0 && b == 0 {
    } else {
      assert 2 * h / 2 == h && 2 * h % 2 == 0;
    }
  }

  lemma {:induction false} ShrIs(x: nat, n: nat)
    ensures Shr(x, n) == x / Pow2(n)
  {
    if n > 0 {
      ShrIs(x / 2, n - 1);
      DivDiv(x, Pow2(n - 1));
    }
  }

  lemma ClearTop(y: Word, mask: Word)
    requires mask == Not(Shl(1, 31))
    ensures And(y, mask) == y % 0x8000_0000
  {
    Pow2Values();
    AndLow(y, 31);
  }
}
