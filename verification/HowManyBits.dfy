/** howManyBits of datalab/bits.c: the size of the smallest two's complement field that holds x. */
module HowManyBits {
  import opened Words
  import opened CInts

  // v fits a two's complement field of n bits.
  ghost predicate FitsIn(v: int, n: nat)
    requires n >= 1
  {
    -(Pow2(n - 1) as int) <= v < Pow2(n - 1)
  }

  // The number of bits of m without leading zeros.
  function BitLength(m: nat): nat {
    if m == 0 then 0 else 1 + BitLength(m / 2)
  }

  lemma {:induction false} BitLengthBounds(m: nat)
    requires m > 0
    ensures BitLength(m) >= 1 && Pow2(BitLength(m) - 1) <= m < Pow2(BitLength(m))
  {
    if m > 1 {
      BitLengthBounds(m / 2);
    }
  }

  lemma {:induction false} BitLengthShift(m: nat, k: nat)
    requires m / Pow2(k) > 0
    ensures BitLength(m) == BitLength(m / Pow2(k)) + k
  {
    if k > 0 {
      DivDiv(m, Pow2(k - 1));
      BitLengthShift(m / 2, k - 1);
    }
  }

  ghost predicate IsPower(m: nat) {
    m > 0 && m == Pow2(BitLength(m) - 1)
  }

  /** m & (m - 1) clears the lowest one bit, so it is zero exactly for powers of two. */
  lemma {:induction false} PowerOfTwo(m: nat)
    requires m > 0
    ensures And(m, m - 1) == 0 <==> IsPower(m)
  {
    var a := m / 2;
    if m % 2 == 1 {
      AndSelf(a);
      assert (m - 1) / 2 == a && (m - 1) % 2 == 0;
      assert a > 0 ==> BitLength(m) >= 2;
    } else {
      PowerOfTwo(a);
      assert (m - 1) / 2 == a - 1;
      assert BitLength(m) == 1 + BitLength(a);
    }
  }

  // One halving step: shift x right by k if that leaves anything, and count the k bits.
  lemma HalvingStep(x: nat, k: nat)
    requires x < Pow2(k) * Pow2(k)
    ensures var tmp := if Shr(x, k) == 0 then 0 else k;
      Shr(x, tmp) < Pow2(k) && BitLength(x) == BitLength(Shr(x, tmp)) + tmp
  {
    ShrIs(x, k);
    if x / Pow2(k) > 0 {
      BitLengthShift(x, k);
      QuotientBound(x, Pow2(k));
    } else {
      SmallQuotient(x, Pow2(k));
    }
  }

  lemma QuotientBound(x: nat, p: nat)
    requires p > 0 && x < p * p
    ensures x / p < p
  {
    Distribute(x / p, p, p);
    MulNonNegative(x / p - p, p);
  }

  lemma MulNonNegative(e: int, p: nat)
    ensures e >= 0 ==> e * p >= 0
  {
  }

  lemma SmallQuotient(x: nat, p: nat)
    requires p > 0 && x / p == 0
    ensures x < p
  {
  }

  lemma AndOnes(y: Word)
    ensures And(Not(0), y) == y
  {
    Pow2Values();
    AndComm(Not(0), y);
    AndLow(y, 32);
  }

  // test is ~0, so (test + !c) & k is k when c is nonzero and 0 otherwise.
  lemma MaskIf(c: int, k: Word, mask: Word)
    requires mask == Add(Not(0), Lnot(c))
    ensures And(mask, k) == if c == 0 then 0 else k
  {
    if c != 0 {
      AndOnes(k);
    }
  }

  // The magnitude the method works on: x itself, or -x without its top bit.
  function Magnitude(x: Word): Word {
    if x < 0x8000_0000 then x else if x == 0x8000_0000 then 0 else WORD_LIMIT - x
  }

  // What is counted besides the magnitude's own bits.
  ghost function Extra(x: Word): Word {
    Besides(Magnitude(x), x < 0x8000_0000)
  }

  ghost function Besides(m: Word, positive: bool): Word {
    if m == 0 then (if positive then 1 else 32) else if positive || !IsPower(m) then 1 else 0
  }

  lemma SmallLength(m: nat)
    requires m < 0x8000_0000
    ensures BitLength(m) <= 31
  {
    if m > 0 {
      Pow2Values();
      BitLengthBounds(m);
      if BitLength(m) > 31 {
        Pow2Monotone(31, BitLength(m) - 1);
      }
    }
  }

  /** The least width for a non-negative number, and for a negative one. */
  lemma NonNegativeFits(m: nat, n: nat)
    requires n >= 1
    ensures FitsIn(m, n) <==> n >= 1 + BitLength(m)
  {
    if m > 0 {
      BitLengthBounds(m);
    }
    FitsFrom(m, n, 1 + BitLength(m));
  }

  lemma NegativeFits(m: int, n: nat)
    requires m > 0 && n >= 1
    ensures FitsIn(-m, n) <==> n >= BitLength(m) + if IsPower(m) then 0 else 1
  {
    BitLengthBounds(m);
    FitsFrom(-m, n, BitLength(m) + if IsPower(m) then 0 else 1);
  }

  /** That count is the least field width. */
  lemma CountIsLeast(x: Word, n: nat)
    requires n >= 1
    ensures var r := Extra(x) + BitLength(Magnitude(x));
      1 <= r <= 32 && (FitsIn(Signed(x), n) <==> n >= r)
  {
    SmallLength(Magnitude(x));
    if x < 0x8000_0000 {
      NonNegativeFits(x, n);
    } else if x == 0x8000_0000 {
      Pow2Values();
      FitsFrom(-0x8000_0000, n, 32);
    } else {
      NegativeFits(Magnitude(x), n);
      BitLengthBounds(Magnitude(x));
    }
  }

  // Fitting is upward closed, so the least width is where it starts.
  lemma FitsFrom(v: int, n: nat, r: nat)
    requires n >= 1 && r >= 1 && FitsIn(v, r) && (r == 1 || !FitsIn(v, r - 1))
    ensures FitsIn(v, n) <==> n >= r
  {
    if n >= r {
      Pow2Monotone(r - 1, n - 1);
    } else {
      Pow2Monotone(n - 1, r - 2);
    }
  }

  lemma SignBit(arg: Word)
    ensures And(Shl(1, 31), arg) == if arg < 0x8000_0000 then 0 else 0x8000_0000
  {
    Pow2Values();
    AndBit(arg, 31);
  }

  lemma KeepFirst(x: Word, neg: Word, on: Word, off: Word)
    requires on == Not(0) && off == 0
    ensures Or(And(on, x), And(off, neg)) == x && Or(And(off, neg), And(on, x)) == x
  {
    AndOnes(x);
    OrZero(x);
  }

  lemma Masks(s: Word)
    requires s <= 1
    ensures Add(Not(0), s) == (if s == 1 then 0 else Not(0)) && Add(Not(0), Lnot(s)) == (if s == 1 then Not(0) else 0)
  {
  }

  // The two masks select x or -x.
  lemma Choose(neg: Word, x: Word, s: Word, a: Word, b: Word)
    requires s <= 1 && a == Add(Not(0), s) && b == Add(Not(0), Lnot(s))
    ensures Or(And(a, neg), And(b, x)) == if s == 1 then x else neg
  {
    Masks(s);
    if s == 1 {
      KeepFirst(x, neg, b, a);
    } else {
      KeepFirst(neg, x, a, b);
    }
  }

  lemma MagnitudeIs(arg: Word)
    ensures (if arg < 0x8000_0000 then arg else Add(Not(arg), 1)) % 0x8000_0000 == Magnitude(arg)
  {
  }

  lemma OrFlags(a: Word, b: Word)
    requires a <= 1 && b <= 1
    ensures And(1, Or(a, b)) == if a == 1 || b == 1 then 1 else 0
  {
    assert Or(0, 0) == 0;
    AndOne(Or(a, b));
  }

  lemma CountStart(x: Word, sign: Word, low: Word, some: Word)
    requires sign <= 1 && some == And(sign, Lnot(Lnot(x)))
    requires low == 0 <==> x == 0 || IsPower(x)
    ensures And(1, Or(Lnot(Lnot(low)), some)) == if x != 0 && (sign == 1 || !IsPower(x)) then 1 else 0
  {
    AndOne(Lnot(Lnot(x)));
    assert some == if sign == 1 && x != 0 then 1 else 0;
    OrFlags(Lnot(Lnot(low)), some);
  }

  lemma LowestCleared(x: Word)
    requires x != 0
    ensures And(x, Add(x, Not(0))) == 0 <==> IsPower(x)
  {
    PowerOfTwo(x);
    assert Add(x, Not(0)) == x - 1;
  }

  lemma NoMagnitude(x: Word, sign: Word, mask: Word)
    requires sign <= 1 && mask == Add(Not(0), Lnot(And(Lnot(x), Lnot(sign))))
    ensures And(mask, 31) == if x == 0 && sign == 0 then 31 else 0
  {
    AndOne(Lnot(sign));
    MaskIf(And(Lnot(x), Lnot(sign)), 31, mask);
  }

  // k if c is not zero.
  method Mask(c: int, k: Word) returns (tmp: Word)
    ensures tmp == if c == 0 then 0 else k
  {
    var mask := Add(Not(0), Lnot(c));
    MaskIf(c, k, mask);
    tmp := And(mask, k);
  }

  // Shift by k if anything is left above the low k bits, and count the k bits.
  method Halve(x: Word, count: Word, k: Word) returns (x': Word, count': Word)
    requires x < Pow2(k) * Pow2(k) && count + BitLength(x) <= 32
    ensures x' < Pow2(k) && count' + BitLength(x') == count + BitLength(x)
  {
    var tmp := Mask(Shr(x, k), k);
    HalvingStep(x, k);
    x' := Shr(x, tmp);
    count' := Add(count, tmp);
  }

  // The first half of the method: the magnitude, and what is counted besides its bits.
  method Prepare(arg: Word) returns (x: Word, count: Word)
    ensures x == Magnitude(arg) && count == Extra(arg)
  {
    var test := Not(0);
    var sign := Lnot(And(Shl(1, 31), arg));
    SignBit(arg);
    Choose(Add(Not(arg), 1), arg, sign, Add(test, sign), Add(test, Lnot(sign)));
    x := Or(And(Add(test, sign), Add(Not(arg), 1)), And(Add(test, Lnot(sign)), arg));
    ClearTop(x, Not(Shl(1, 31)));
    MagnitudeIs(arg);
    x := And(x, Not(Shl(1, 31)));
    count := CountBesides(x, sign);
  }

  method CountBesides(x: Word, sign: Word) returns (count: Word)
    requires x < 0x8000_0000 && sign <= 1
    ensures count == Besides(x, sign == 1)
  {
    var test := Not(0);
    count := 1;
    count := And(count, Or(Lnot(Lnot(And(x, Add(x, test)))), And(sign, Lnot(Lnot(x)))));
    if x != 0 {
      LowestCleared(x);
    }
    CountStart(x, sign, And(x, Add(x, test)), And(sign, Lnot(Lnot(x))));
    var mask := Add(test, Lnot(And(Lnot(x), Lnot(sign))));
    NoMagnitude(x, sign, mask);
    count := Add(Add(count, Lnot(x)), And(mask, 31));
  }

  lemma Squares()
    ensures Pow2(16) * Pow2(16) == WORD_LIMIT && Pow2(8) * Pow2(8) == Pow2(16) && Pow2(4) * Pow2(4) == Pow2(8)
    ensures Pow2(2) * Pow2(2) == Pow2(4) && Pow2(1) * Pow2(1) == Pow2(2) && Pow2(1) == 2
  {
    Pow2Values();
  }

  // The halving steps: together they count the bits of x.
  method CountBits(x0: Word, count0: Word) returns (count: Word)
    requires count0 + BitLength(x0) <= 32
    ensures count == count0 + BitLength(x0)
  {
    Squares();
    var x: Word;
    x, count := Halve(x0, count0, 16);
    x, count := Halve(x, count, 8);
    x, count := Halve(x, count, 4);
    x, count := Halve(x, count, 2);
    x, count := Halve(x, count, 1);
    AndOne(x);
    count := Add(count, And(x, 1));
  }

  /** The least n such that x fits n bits, for every x. */
  method HowManyBits(arg: Word) returns (count: Word)
    ensures 1 <= count <= 32
    ensures forall n: nat {:trigger FitsIn(Signed(arg), n)} | n >= 1 :: FitsIn(Signed(arg), n) <==> n >= count
  {
    var x: Word;
    x, count := Prepare(arg);
    CountIsLeast(arg, 1);
    count := CountBits(x, count);
    forall n: nat | n >= 1 ensures FitsIn(Signed(arg), n) <==> n >= count {
      CountIsLeast(arg, n);
    }
  }
}
