/** float_half and float_f2i of datalab/bits.c, on the encodings of IEEE 754-2008 section 3.4 (binary32). */
module Floats {
  import opened Words
  import opened CInts

  function Sign(u: Word): nat {
    u / 0x8000_0000
  }

  function Exponent(u: Word): nat {
    u / 0x80_0000 % 0x100
  }

  function Fraction(u: Word): nat {
    u % 0x80_0000
  }

  predicate Finite(u: Word) {
    Exponent(u) != 255
  }

  // The magnitude of a finite float, in units of 2^-149, the smallest subnormal. It is an integer.
  ghost function Magnitude(u: Word): nat {
    if Exponent(u) == 0 then Fraction(u) else (0x80_0000 + Fraction(u)) * Pow2(Exponent(u) - 1)
  }

  // The value of a finite float, in the same units.
  ghost function Value(u: Word): int {
    if Sign(u) == 1 then 0 - Magnitude(u) else Magnitude(u)
  }

  function Abs(x: int): nat {
    if x < 0 then -x else x
  }

  // Twice the distance between the value of r and half the value of u.
  ghost function Distance(r: Word, u: Word): nat {
    Abs(2 * Value(r) - Value(u))
  }

  // Correct rounding: no finite float is nearer, and of two equally near ones r is the one with an even encoding.
  ghost predicate NearestHalf(r: Word, u: Word) {
    && Finite(r)
    && (forall g: Word {:trigger Finite(g)} | Finite(g) :: Distance(r, u) <= Distance(g, u))
    && (forall g: Word {:trigger Finite(g)} | Finite(g) && Distance(g, u) == Distance(r, u) ::
          Value(g) == Value(r) || r % 2 == 0)
  }

  // ---- Reading and building encodings -----------------------------------------

  /** An encoding is its three fields. */
  lemma Fields(s: nat, e: nat, m: nat)
    requires s <= 1 && e <= 255 && m < 0x80_0000
    ensures var u := s * 0x8000_0000 + e * 0x80_0000 + m;
      u < WORD_LIMIT && Sign(u) == s && Exponent(u) == e && Fraction(u) == m
  {
  }

  lemma Parts(u: Word)
    ensures u == Sign(u) * 0x8000_0000 + Exponent(u) * 0x80_0000 + Fraction(u) && Sign(u) <= 1
  {
  }

  // How both functions take the argument apart.
  lemma Unpack(u: Word)
    ensures And(u, Shl(1, 31)) == Sign(u) * 0x8000_0000
    ensures And(Shr(u, 23), 0xFF) == Exponent(u)
    ensures And(u, 0x7F_FFFF) == Fraction(u)
  {
    Pow2Values();
    AndComm(u, 0x8000_0000);
    AndBit(u, 31);
    ShrIs(u, 23);
    AndLow(Shr(u, 23), 8);
    AndLow(u, 23);
  }

  // The sign in place, the exponent and the fraction: the first statements of both functions.
  method TakeApart(uf: Word) returns (s: Word, e: Word, m: Word)
    ensures s == Sign(uf) * 0x8000_0000 && e == Exponent(uf) && m == Fraction(uf)
  {
    Unpack(uf);
    s := And(uf, Shl(1, 31));
    e := And(Shr(uf, 23), 0xFF);
    m := And(uf, 0x7F_FFFF);
  }

  /** The value of an encoding, by its fields, in units of 2^-149; the largest exponent encodes no finite value. */
  lemma ValueIs(u: Word, s: nat, e: nat, m: nat)
    requires s <= 1 && e <= 255 && m < 0x80_0000 && u == s * 0x8000_0000 + e * 0x80_0000 + m
    ensures Finite(u) <==> e <= 254
    ensures var v := if e == 0 then m else (0x80_0000 + m) * Pow2(e - 1); Value(u) == if s == 1 then 0 - v else v
  {
    Fields(s, e, m);
  }

  /** So 0x3F800000 is one, that is 2^149 units. */
  lemma OneIs(u: Word, unit: nat)
    requires u == 0x3F80_0000 && unit == 149
    ensures Value(u) == Magnitude(u) == Pow2(unit)
  {
    var k := unit - 23;
    ValueIs(u, 0, k + 1, 0);
    Pow2Values();
    Pow2Add(23, k);
  }

  lemma TruncatedOne(u: Word, unit: nat)
    requires u == 0x3F80_0000 && unit == 149
    ensures Truncated(u) == 1
  {
    OneIs(u, unit);
    DivSelf(Pow2(unit));
  }

  lemma DivSelf(p: nat)
    requires p > 0
    ensures p / p == 1
  {
  }

  // In the subnormal range and the first normal binade an encoding without its sign is its magnitude.
  lemma SmallMagnitude(u: Word)
    requires u % 0x8000_0000 <= 0x100_0000
    ensures Finite(u) && Magnitude(u) == u % 0x8000_0000
  {
    Parts(u);
    assert Exponent(u) == 2 ==> Pow2(1) == 2;
  }

  lemma AddIs(a: Word, b: Word)
    requires a + b < WORD_LIMIT
    ensures Add(a, b) == a + b
  {
  }

  lemma WrapIs(x: nat)
    requires x < WORD_LIMIT
    ensures Wrap(x) == x
  {
  }

  lemma NegateIs(x: Word)
    requires x < 0x8000_0000
    ensures Signed(Add(Not(x), 1)) == 0 - x
  {
  }

  lemma PackExponent(e: nat)
    requires e <= 255
    ensures Shl(e, 23) == e * 0x80_0000
  {
    Pow2Values();
    WrapIs(e * 0x80_0000);
  }

  lemma PackSign(s: nat, b: nat)
    requires s <= 1 && b < 0x8000_0000
    ensures Or(s * 0x8000_0000, b) == s * 0x8000_0000 + b
  {
    Pow2Values();
    OrDisjoint(s, b, 31);
  }

  lemma PackFraction(h: nat, m: nat)
    requires m < 0x80_0000
    ensures Or(h * 0x80_0000, m) == h * 0x80_0000 + m
  {
    Pow2Values();
    OrDisjoint(h, m, 23);
  }

  // ---- float_half -------------------------------------------------------------

  // From the second binade on the exponent is lowered by one, which is exact.
  lemma HalvedExactly(u: Word, r: Word)
    requires 2 <= Exponent(u) < 255 && Sign(r) == Sign(u)
    requires Exponent(r) == Exponent(u) - 1 && Fraction(r) == Fraction(u)
    ensures NearestHalf(r, u)
  {
    var e, f := Exponent(u), 0x80_0000 + Fraction(u);
    assert Pow2(e - 1) == 2 * Pow2(e - 2);
    TwiceProduct(f, Pow2(e - 2));
    assert Distance(r, u) == 0;
  }

  // n / 2, to even when n is odd.
  ghost function HalfEven(n: nat): nat {
    n / 2 + if n % 4 == 3 then 1 else 0
  }

  lemma RoundedHalf(n: nat)
    requires n < 0x100_0000
    ensures var h := HalfEven(n); h <= 0x80_0000 && Abs(2 * h - n) == n % 2 && (n % 2 == 1 ==> h % 2 == 0)
  {
  }

  lemma SmallValue(u: Word, s: nat, n: nat)
    requires s <= 1 && n <= 0x100_0000 && u == s * 0x8000_0000 + n
    ensures Finite(u) && Sign(u) == s && Value(u) == (if s == 1 then 0 - n else n) && u % 2 == n % 2
  {
    SmallMagnitude(u);
  }

  lemma Nearest(u: Word, r: Word, n: nat, h: nat)
    requires Finite(r) && Abs(2 * h - n) == n % 2 && (n % 2 == 1 ==> r % 2 == 0)
    requires (Value(u) == n && Value(r) == h) || (Value(u) == 0 - n && Value(r) == 0 - h)
    ensures NearestHalf(r, u)
  {
    forall g: Word | Finite(g) ensures Distance(g, u) >= n % 2 {
      OddDistance(Value(g), Value(u));
    }
    assert Distance(r, u) == n % 2;
  }

  lemma OddDistance(g: int, v: int)
    ensures Abs(2 * g - v) >= v % 2 == Abs(v) % 2
  {
  }

  // Below that the whole encoding is shifted, and an odd one is rounded to even.
  lemma HalvedToEven(u: Word, r: Word, s: nat, n: nat)
    requires s <= 1 && n < 0x100_0000 && u == s * 0x8000_0000 + n && r == s * 0x8000_0000 + HalfEven(n)
    ensures NearestHalf(r, u) && Sign(r) == Sign(u)
  {
    RoundedHalf(n);
    SmallValue(u, s, n);
    SmallValue(r, s, HalfEven(n));
    Nearest(u, r, n, HalfEven(n));
  }

  lemma LowBit(n: nat, m1: nat, low: nat)
    requires m1 == Shr(n, 1) && low == And(And(n, m1), 1)
    ensures m1 == n / 2 && m1 + low == HalfEven(n)
  {
    ShrIs(n, 1);
    AndOne(And(n, m1));
    AndParity(n, m1);
  }

  method HalveSmall(fs: Word, e: Word, m: Word, ghost s: nat) returns (r: Word)
    requires s <= 1 && fs == s * 0x8000_0000 && e <= 1 && m < 0x80_0000
    ensures r == s * 0x8000_0000 + HalfEven(e * 0x80_0000 + m)
  {
    PackExponent(e);
    PackFraction(e, m);
    var n1 := Or(Shl(e, 23), m);
    r := Rounded(fs, n1, s);
  }

  method Rounded(fs: Word, n1: Word, ghost s: nat) returns (r: Word)
    requires s <= 1 && fs == s * 0x8000_0000 && n1 < 0x100_0000
    ensures r == s * 0x8000_0000 + HalfEven(n1)
  {
    var m1 := Shr(n1, 1);
    var low := And(And(n1, m1), 1);
    LowBit(n1, m1, low);
    RoundedHalf(n1);
    PackSign(s, m1);
    AddIs(Or(fs, m1), low);
    r := Add(Or(fs, m1), low);
  }

  lemma Packed(s: nat, e: nat, m: nat)
    requires s <= 1 && e <= 254 && m < 0x80_0000
    ensures Or(Or(s * 0x8000_0000, e * 0x80_0000), m) == s * 0x8000_0000 + e * 0x80_0000 + m
  {
    PackSign(s, e * 0x80_0000);
    PackFraction(s * 0x100 + e, m);
  }

  method WithoutSign(y: Word) returns (r: Word)
    requires y < 0x8000_0000
    ensures r == y
  {
    var mask := Not(Shl(1, 31));
    ClearTop(y, mask);
    r := And(y, mask);
  }

  method HalveNormal(fs: Word, e: Word, m: Word, ghost s: nat) returns (r: Word)
    requires s <= 1 && fs == s * 0x8000_0000 && e <= 254 && m < 0x80_0000
    ensures r == s * 0x8000_0000 + e * 0x80_0000 + m
  {
    PackExponent(e);
    var fe := WithoutSign(Shl(e, 23));
    Packed(s, e, m);
    r := Or(Or(fs, fe), m);
  }

  /**
   * float_half is half the argument, correctly rounded with ties to even; infinities and NaNs are returned as they are.
   */
  method FloatHalf(uf: Word) returns (r: Word)
    ensures !Finite(uf) ==> r == uf
    ensures Finite(uf) ==> NearestHalf(r, uf) && Sign(r) == Sign(uf)
  {
    var fs, e, m := TakeApart(uf);
    Parts(uf);
    if e == 255 {
      return uf;
    }
    var temp: int := -127;
    if e != 0 {
      temp := e as int - 128;
    }
    if temp == -127 {
      r := HalveSmall(fs, e, m, Sign(uf));
      HalvedToEven(uf, r, Sign(uf), e * 0x80_0000 + m);
    } else {
      r := HalveNormal(fs, 127 + temp, m, Sign(uf));
      Fields(Sign(uf), e - 1, m);
      HalvedExactly(uf, r);
    }
  }

  // ---- float_f2i --------------------------------------------------------------

  // The integer next to the value towards zero. 2^149 units are one.
  ghost function Truncated(u: Word): int {
    var t := Magnitude(u) / Pow2(149);
    if Sign(u) == 1 then 0 - t else t
  }

  ghost predicate Representable(u: Word) {
    Finite(u) && -0x8000_0000 <= Truncated(u) < 0x8000_0000
  }

  lemma ScaleUp(f: nat, a: nat, b: nat)
    requires a >= b
    ensures f * Pow2(a) / Pow2(b) == f * Pow2(a - b)
  {
    Pow2Add(a - b, b);
    assert f * Pow2(a) == f * Pow2(a - b) * Pow2(b);
    ModIs(f * Pow2(a), Pow2(b), f * Pow2(a - b), 0);
  }

  lemma ScaleDown(f: nat, a: nat, b: nat)
    requires a <= b
    ensures f * Pow2(a) / Pow2(b) == f / Pow2(b - a)
  {
    Pow2Add(a, b - a);
    DivScaled(f, Pow2(a), Pow2(b - a), Pow2(b));
  }

  lemma DivScaled(f: nat, p: nat, q: nat, pq: nat)
    requires p > 0 && q > 0 && pq == p * q
    ensures f * p / pq == f / q
  {
    var c, d := f / q, f % q;
    Scaled(f, c, d, p, q);
    ModIs(f * p, pq, c, d * p);
  }

  lemma Scaled(f: nat, c: nat, d: nat, p: nat, q: nat)
    requires p > 0 && d < q && f == c * q + d
    ensures f * p == c * (p * q) + d * p && 0 <= d * p < p * q
  {
    Distribute(q, d, p);
    MulAtLeast(q - d, p);
  }

  // The magnitude cut to an integer, in the four ranges of the exponent. f is 2^23 + m.
  lemma Large(f: nat, e: nat)
    requires e >= 150
    ensures f * Pow2(e - 1) / Pow2(149) == f * Pow2(e - 150)
  {
    ScaleUp(f, e - 1, 149);
  }

  lemma Middle(f: nat, e: nat)
    requires 1 <= e <= 150
    ensures f * Pow2(e - 1) / Pow2(149) == f / Pow2(150 - e)
  {
    ScaleDown(f, e - 1, 149);
  }

  lemma Tiny(f: nat, e: nat)
    requires 1 <= e <= 126 && f < 0x100_0000
    ensures f * Pow2(e - 1) / Pow2(149) == 0
  {
    Middle(f, e);
    VanishesBelow(f, 24, 150 - e);
  }

  lemma VanishesBelow(f: nat, a: nat, b: nat)
    requires a <= b && 23 <= a <= 24 && f < (if a == 23 then 0x80_0000 else 0x100_0000)
    ensures f / Pow2(b) == 0
  {
    Pow2Values();
    Pow2Monotone(a, b);
    Vanishes(f, Pow2(b));
  }

  lemma Vanishes(f: nat, p: nat)
    requires f < p
    ensures f / p == 0
  {
    ModIs(f, p, 0, f);
  }

  // The two parts of the significand are moved separately.
  lemma MovedUp(m: nat, k: nat)
    requires m < 0x80_0000 && k <= 7
    ensures (0x80_0000 + m) * Pow2(k) == Pow2(23 + k) + m * Pow2(k) < 0x8000_0000
  {
    Pow2Values();
    Pow2Add(23, k);
    Pow2Monotone(k, 7);
    Distribute(0x100_0000, 0x80_0000 + m, Pow2(k));
    MulAtLeast(0x80_0000 - m, Pow2(k));
    assert 0x100_0000 * Pow2(k) <= 0x8000_0000;
  }

  lemma MovedDown(m: nat, k: nat)
    requires m < 0x80_0000 && 1 <= k <= 23
    ensures (0x80_0000 + m) / Pow2(k) == Pow2(23 - k) + m / Pow2(k) && m / Pow2(k) < Pow2(23 - k)
  {
    Pow2Values();
    Pow2Add(23 - k, k);
    SplitQuotient(m, Pow2(23 - k), Pow2(k));
  }

  lemma SplitQuotient(m: nat, h: nat, p: nat)
    requires p > 0 && m < h * p
    ensures (h * p + m) / p == h + m / p && m / p < h
  {
    var q, r := m / p, m % p;
    assert m == q * p + r;
    assert (h + q) * p == h * p + q * p;
    ModIs(h * p + m, p, h + q, r);
    if q >= h {
      MulMonotone(q, h, p, p);
    }
  }

  lemma Huge(f: nat, e: nat)
    requires f >= 0x80_0000 && e >= 158
    ensures f * Pow2(e - 150) >= 0x8000_0000
  {
    Pow2Values();
    Pow2Monotone(8, e - 150);
    MulMonotone(f, 0x80_0000, Pow2(e - 150), 0x100);
  }

  lemma MulMonotone(a: nat, b: nat, c: nat, d: nat)
    requires a >= b && c >= d
    ensures a * c >= b * d
  {
    Distribute(a, b, c);
    assert (a - b) * c >= 0;
    assert b * c >= b * d;
  }

  // The integer part of the magnitude, by the range of the unbiased exponent e - 127.
  ghost function IntegerPart(e: nat, m: nat): nat {
    if e < 127 then 0
    else if e <= 149 then Pow2(e - 127) + m / Pow2(150 - e)
    else (0x80_0000 + m) * Pow2(e - 150)
  }

  lemma IntegerPartIs(e: nat, m: nat)
    requires m < 0x80_0000
    ensures (if e == 0 then m else (0x80_0000 + m) * Pow2(e - 1)) / Pow2(149) == IntegerPart(e, m)
  {
    if e == 0 {
      VanishesBelow(m, 23, 149);
    } else if e < 127 {
      Tiny(0x80_0000 + m, e);
    } else if e <= 149 {
      Middle(0x80_0000 + m, e);
      MovedDown(m, 150 - e);
    } else {
      Large(0x80_0000 + m, e);
    }
  }

  lemma TruncatedIs(u: Word)
    ensures var t := IntegerPart(Exponent(u), Fraction(u)); Truncated(u) == if Sign(u) == 1 then 0 - t else t
  {
    IntegerPartIs(Exponent(u), Fraction(u));
  }

  lemma ShlOne(n: nat)
    requires n <= 30
    ensures Shl(1, n) == Pow2(n) <= 0x4000_0000
  {
    Pow2Values();
    Pow2Monotone(n, 30);
  }

  lemma ShiftKeeps(m: nat, k: nat)
    requires m < 0x80_0000 && k <= 7
    ensures Shl(m, k) + Pow2(23 + k) == (0x80_0000 + m) * Pow2(k) < 0x8000_0000
  {
    MovedUp(m, k);
    WrapIs(m * Pow2(k));
  }

  lemma ShiftedUp(m: nat, E: nat, exp: nat)
    requires m < 0x80_0000 && 23 <= E <= 30 && exp == Shl(m, E - 23)
    ensures exp + Pow2(E) == IntegerPart(E + 127, m) < 0x8000_0000
  {
    ShiftKeeps(m, E - 23);
  }

  lemma ShiftedDown(m: nat, E: nat, exp: nat)
    requires m < 0x80_0000 && E <= 22 && exp == Shr(m, 23 - E)
    ensures exp + Pow2(E) == IntegerPart(E + 127, m) < 0x8000_0000
  {
    Pow2Values();
    Pow2Monotone(E, 22);
    MovedDown(m, 23 - E);
    ShrIs(m, 23 - E);
  }

  // r is the int with this sign and magnitude, or 0x80000000 if there is none.
  ghost predicate IntOrLeast(r: Word, negative: bool, t: nat) {
    if t > 0x8000_0000 || (t == 0x8000_0000 && !negative) then r == 0x8000_0000
    else Signed(r) == if negative then 0 - t else t
  }

  // The branches of float_f2i on the exponent, for a finite argument.
  method Convert(s: Word, e: int, m: Word) returns (r: Word)
    requires 0 <= e < 255 && m < 0x80_0000
    ensures IntOrLeast(r, s != 0, IntegerPart(e, m))
  {
    var E := if e != 0 then e - 127 else -126;
    var exp: Word;
    if E > 30 {
      Pow2Values();
      Huge(0x80_0000 + m, e);
      return Shl(1, 31);
    } else if E < 0 {
      return 0;
    } else if E > 22 {
      exp := Shl(m, E - 23);
      ShiftedUp(m, E, exp);
    } else {
      exp := Shr(m, 23 - E);
      ShiftedDown(m, E, exp);
    }
    ShlOne(E);
    AddIs(exp, Pow2(E));
    exp := Add(exp, Shl(1, E));
    if s != 0 {
      NegateIs(exp);
      exp := Add(Not(exp), 1);
    }
    return exp;
  }

  /**
   * float_f2i truncates towards zero when the result is an int; otherwise, and for infinities and NaNs, it is
   * 0x80000000.
   */
  method FloatF2i(uf: Word) returns (r: Word)
    ensures if Representable(uf) then Signed(r) == Truncated(uf) else r == 0x8000_0000
  {
    var s, e, m := TakeApart(uf);
    if e == 255 {
      Pow2Values();
      return Shl(1, 31);
    }
    TruncatedIs(uf);
    r := Convert(s, e, m);
  }
}
