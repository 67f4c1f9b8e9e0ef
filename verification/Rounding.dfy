/** jerry-math/floor.c and ceil.c: the integers next to a double. */
module Rounding {
  import opened Words
  import opened Doubles

  /** 2^n * 2^1074: an integer n as a value. */
  function Whole(n: int): int {
    Up(n, 1074)
  }

  /** r is the greatest integer that is at most x, or the least that is at least x, with the sign of x when it is zero. */
  ghost predicate IsFloor(x: Double, r: Double)
    requires Finite(x)
  {
    && Finite(r) && (exists n: int :: Value(r) == Whole(n) && Whole(n) <= Value(x) < Whole(n + 1))
    && (IsZero(r) ==> Negative(r) == Negative(x))
  }

  ghost predicate IsCeil(x: Double, r: Double)
    requires Finite(x)
  {
    && Finite(r) && (exists n: int :: Value(r) == Whole(n) && Whole(n - 1) < Value(x) <= Whole(n))
    && (IsZero(r) ==> Negative(r) == Negative(x))
  }

  // ---------------------------------------------------------------- magnitudes

  /** The number of bits of the significand behind the point, for exponents 0 to 51. */
  function FractionBits(x: Double): (k: nat)
    requires 0x3ff <= ExponentField(x) < 0x433
    ensures 1 <= k <= 52
  {
    0x433 - ExponentField(x)
  }

  /** The bits behind the point. */
  function Tail(x: Double): (t: nat)
    requires 0x3ff <= ExponentField(x) < 0x433
    ensures t < Pow2(FractionBits(x))
  {
    Significand(x) % Pow2(FractionBits(x))
  }

  /** The integer part of the magnitude. */
  function IntegerPart(x: Double): (q: nat)
    requires 0x3ff <= ExponentField(x) < 0x433
  {
    DivAtMost(Significand(x), Pow2(FractionBits(x)));
    Significand(x) / Pow2(FractionBits(x))
  }

  /** The magnitude lies between its integer part and the next integer. */
  lemma MagnitudeParts(x: Double)
    requires 0x3ff <= ExponentField(x) < 0x433
    ensures var q, s := IntegerPart(x), ExponentField(x) - 1;
      && Magnitude(x) == Whole(q) + Up(Tail(x), s) && Whole(1) == Up(Pow2(FractionBits(x)), s)
      && Whole(q) <= Magnitude(x) < Whole(q + 1)
      && (Magnitude(x) == Whole(q) <==> Tail(x) == 0)
  {
    var q, k, t, s := IntegerPart(x), FractionBits(x), Tail(x), ExponentField(x) - 1;
    DivMod(Significand(x), Pow2(k));
    assert Significand(x) == q * Pow2(k) + t;
    UpTimes(q, k);
    UpTimes(1, k);
    UpTwice(q, k, s);
    UpTwice(1, k, s);
    UpSum(Up(q, k), t, s);
    UpSum(q, 1, 1074);
    UpOrder(t, Pow2(k), s);
    UpOrder(0, t, s);
    UpZero(s);
  }

  lemma {:induction false} UpZero(n: nat)
    ensures Up(0, n) == 0
  {
    if n != 0 {
      UpZero(n - 1);
    }
  }

  /** A significand in place, or one that carries into the exponent. */
  lemma {:induction false} SignificandInPlace(r: Double, e: nat, c: nat)
    requires 1 <= e < 0x7fe && 0x10_0000_0000_0000 <= c <= 0x20_0000_0000_0000
    requires MagnitudeBits(r) == (e - 1) * 0x10_0000_0000_0000 + c
    ensures Finite(r) && Magnitude(r) == Up(c, e - 1)
  {
    var f := c - 0x10_0000_0000_0000;
    assert MagnitudeBits(r) == e * 0x10_0000_0000_0000 + f == ExponentField(r) * 0x10_0000_0000_0000 + Fraction(r);
    if c < 0x20_0000_0000_0000 {
      assert ExponentField(r) == e && Fraction(r) == f;
    } else {
      assert ExponentField(r) == e + 1 && Fraction(r) == 0;
      UpSum(0x10_0000_0000_0000, 0, e - 1);
    }
  }

  /** Without its tail the double is the integer part, and with one more unit the integer behind it. */
  lemma TailGone(x: Double, r: Double, more: bool)
    requires 0x3ff <= ExponentField(x) < 0x433
    requires MagnitudeBits(r) == MagnitudeBits(x) - Tail(x) + if more then Pow2(FractionBits(x)) else 0
    ensures Finite(r) && Magnitude(r) == Whole(if more then IntegerPart(x) + 1 else IntegerPart(x))
  {
    var e, k, q := ExponentField(x), FractionBits(x), IntegerPart(x);
    var n := if more then q + 1 else q;
    DivMod(Significand(x), Pow2(k));
    MulSum(q, Pow2(k));
    assert MagnitudeBits(r) == (e - 1) * 0x10_0000_0000_0000 + n * Pow2(k);
    IntegerRange(x);
    SignificandInPlace(r, e, n * Pow2(k));
    UpTimes(n, k);
    UpTwice(n, k, e - 1);
  }

  lemma MulSum(q: nat, p: nat)
    ensures (q + 1) * p == q * p + p
  {
  }

  /** The integer part and the next integer are significands. */
  lemma IntegerRange(x: Double)
    requires 0x3ff <= ExponentField(x) < 0x433
    ensures var p, q := Pow2(FractionBits(x)), IntegerPart(x);
      0x10_0000_0000_0000 <= q * p < (q + 1) * p <= 0x20_0000_0000_0000
  {
    var k, q := FractionBits(x), IntegerPart(x);
    var p, h := Pow2(k), Pow2(52 - k);
    Pow2Values();
    Pow2Sum(52, k, 52 - k);
    DivMod(Significand(x), p);
    MulSum(q, p);
    MulCommutes(p, h);
    assert h * p == 0x10_0000_0000_0000;
    assert (2 * h) * p == 2 * (h * p) by {
      MulAssoc(2, h, p);
    }
    TimesOrder(q + 1, h, p);
    TimesOrder(2 * h, q, p);
    TimesOrder(q + 1, 2 * h, p);
    TimesOrder(h, q, p);
  }

  // ---------------------------------------------------------------- words

  /** `a & ~mask` */
  function AndNot(a: Word, mask: Word): Word {
    a - And(a, mask)
  }

  lemma {:induction false} OnesShifted(n: nat, j: nat)
    requires j <= n
    ensures (Pow2(n) - 1) / Pow2(j) == Pow2(n - j) - 1 && Pow2(n) / Pow2(j) == Pow2(n - j)
  {
    Pow2Sum(n, j, n - j);
    var p, q := Pow2(j), Pow2(n - j);
    Distributed(p, q);
    ModUnique(Pow2(n) - 1, p, q - 1, p - 1);
    ModUnique(Pow2(n), p, q, 0);
  }

  lemma Distributed(p: int, q: int)
    ensures p * (q - 1) == p * q - p
  {
  }

  lemma SameRemainder(a: int, b: int, p: int, m: int)
    requires p > 0 && a == b + p * m
    ensures a % p == b % p
  {
    var q, r := b / p, b % p;
    assert b == p * q + r;
    Factored(p, q, m);
    ModUnique(a, p, q + m, r);
  }

  lemma Factored(p: int, q: int, m: int)
    ensures p * (q + m) == p * q + p * m
  {
  }

  /** The high word of the significand. */
  function HighPart(x: Double): (h: nat)
    requires ExponentField(x) > 0
    ensures Significand(x) == Pair(h, x.lo)
  {
    0x10_0000 + AbsHi(x) % 0x10_0000
  }

  /** The unit of the high word for exponents 0 to 19. */
  function HighUnit(x: Double): nat
    requires 0x3ff <= ExponentField(x) < 0x413
  {
    Pow2(0x413 - ExponentField(x))
  }

  /** The unit divides everything above the fraction. */
  lemma HighRemainder(x: Double)
    requires 0x3ff <= ExponentField(x) < 0x413
    ensures x.hi % HighUnit(x) == HighPart(x) % HighUnit(x)
  {
    var n := 0x413 - ExponentField(x);
    var p, m, h := Pow2(n), Pow2(20 - n), HighPart(x);
    Pow2Values();
    Pow2Sum(20, n, 20 - n);
    var above := HighAbove(x);
    MulAssoc(p, m, above);
    SameRemainder(x.hi, h, p, m * above);
  }

  function HighAbove(x: Double): (n: int)
    requires ExponentField(x) > 0
    ensures x.hi == HighPart(x) + 0x10_0000 * n
  {
    ExponentField(x) - 1 + if Negative(x) then 0x800 else 0
  }

  lemma TailOfHigh(x: Double)
    requires 0x3ff <= ExponentField(x) < 0x413
    ensures HighUnit(x) * 0x1_0000_0000 == Pow2(FractionBits(x))
    ensures Tail(x) == Pair(x.hi % HighUnit(x), x.lo)
  {
    var k, p, h := FractionBits(x), HighUnit(x), HighPart(x);
    HighRemainder(x);
    Pow2Values();
    Pow2Sum(k, k - 32, 32);
    PairRemainder(h, x.lo, p);
  }

  lemma PairRemainder(h: nat, lo: Word, p: nat)
    requires p > 0
    ensures Pair(h, lo) % (p * 0x1_0000_0000) == Pair(h % p, lo)
  {
    var q, r := h / p, h % p;
    assert h == p * q + r;
    Placed(p, q, r, lo);
    hide Pair;
    ModUnique(Pair(h, lo), p * 0x1_0000_0000, q, Pair(r, lo));
  }

  lemma Placed(p: nat, q: nat, r: nat, lo: Word)
    requires r < p
    ensures Pair(p * q + r, lo) == (p * 0x1_0000_0000) * q + Pair(r, lo) && Pair(r, lo) < p * 0x1_0000_0000
  {
  }

  lemma TailOfLow(x: Double)
    requires 0x413 <= ExponentField(x) < 0x433
    ensures Tail(x) == x.lo % Pow2(FractionBits(x)) && Pow2(FractionBits(x)) <= 0x1_0000_0000
    ensures 0x1_0000_0000 % Pow2(FractionBits(x)) == 0
  {
    var k, h := FractionBits(x), HighPart(x);
    Pow2Values();
    Pow2Sum(32, k, 32 - k);
    Pow2Monotonic(k, 32);
    hide ExponentField, HighPart;
    LowRemainder(h, x.lo, Pow2(k), Pow2(32 - k));
  }

  lemma LowRemainder(h: nat, lo: Word, p: nat, m: nat)
    requires p > 0 && p * m == 0x1_0000_0000
    ensures Pair(h, lo) % p == lo % p && 0x1_0000_0000 % p == 0
  {
    MulAssoc(p, m, h);
    MulCommutes(h, 0x1_0000_0000);
    SameRemainder(Pair(h, lo), lo, p, m * h);
    ModOfMultiple(m, p);
  }

  /** r is x without its tail, or with one unit more. */
  predicate Cut(x: Double, r: Double, more: bool)
    requires 0x3ff <= ExponentField(x) < 0x433
  {
    && Negative(r) == Negative(x)
    && MagnitudeBits(r) == MagnitudeBits(x) - Tail(x) + if more then Pow2(FractionBits(x)) else 0
  }

  lemma HighCut(x: Double, more: bool)
    requires 0x3ff <= ExponentField(x) < 0x413
    ensures var p := HighUnit(x);
      var h := if more then x.hi + p else x.hi;
      0 <= h < 0x1_0000_0000 && 0 <= h - h % p && Cut(x, Double(h - h % p, 0), more)
  {
    var p := HighUnit(x);
    var h := if more then x.hi + p else x.hi;
    TailOfHigh(x);
    UnitInWord(x);
    SameRemainder(x.hi + p, x.hi, p, 1);
    assert x.hi % p <= x.hi;
    RemainderBelow(x);
  }

  lemma UnitInWord(x: Double)
    requires 0x3ff <= ExponentField(x) < 0x413
    ensures HighUnit(x) <= 0x10_0000
  {
    hide ExponentField, Pow2;
    var n := 0x413 - ExponentField(x);
    Pow2Values();
    Pow2Monotonic(n, 20);
    assert HighUnit(x) == Pow2(n);
  }

  /** The bits cleared are none of the exponent. */
  lemma RemainderBelow(x: Double)
    requires 0x3ff <= ExponentField(x) < 0x413
    ensures x.hi % HighUnit(x) <= AbsHi(x)
  {
    UnitInWord(x);
  }

  /** `i0`, `i1` behind the step of lines 106-122 of floor.c and the masking. */
  function LowWords(x: Double, more: bool): (r: Double)
    requires 0x413 <= ExponentField(x) < 0x433
  {
    var p := Pow2(FractionBits(x));
    if !more then (DivAtMostMod(x.lo, p); Double(x.hi, x.lo - x.lo % p))
    else if ExponentField(x) == 0x413 then Double(Wrap(x.hi + 1), 0)
    else
      var j := Wrap(x.lo + p);
      DivAtMostMod(j, p);
      Double(if j < x.lo then Wrap(x.hi + 1) else x.hi, j - j % p)
  }

  lemma DivAtMostMod(a: nat, p: nat)
    requires p > 0
    ensures 0 <= a % p <= a
  {
  }

  lemma LowCut(x: Double, more: bool)
    requires 0x413 <= ExponentField(x) < 0x433
    ensures Cut(x, LowWords(x, more), more)
  {
    hide AbsHi, Significand, Tail, MagnitudeBits, Wrap, Pow2, ExponentField;
    var p := Pow2(FractionBits(x));
    TailOfLow(x);
    DivAtMostMod(x.lo, p);
    if !more {
      LowDropped(x, p);
      return;
    }
    if ExponentField(x) == 0x413 {
      WordRemainder(x);
      HighMore(x, Double(Wrap(x.hi + 1), 0));
      WordModulo(x.lo);
      return;
    }
    UnitBelowWord(x);
    LowCarried(x, p);
  }

  lemma WordModulo(lo: Word)
    ensures lo % 0x1_0000_0000 == lo
  {
  }

  lemma UnitBelowWord(x: Double)
    requires 0x414 <= ExponentField(x) < 0x433
    ensures 0 < Pow2(FractionBits(x)) < 0x1_0000_0000
  {
    Pow2Values();
    Pow2Monotonic(FractionBits(x), 31);
  }

  lemma LowDropped(x: Double, p: nat)
    requires p > 0 && 0 <= x.lo % p <= x.lo
    ensures var r := Double(x.hi, x.lo - x.lo % p);
      Negative(r) == Negative(x) && MagnitudeBits(r) == MagnitudeBits(x) - x.lo % p
  {
    HighSame(x, Double(x.hi, x.lo - x.lo % p));
  }

  lemma LowCarried(x: Double, p: nat)
    requires ExponentField(x) < 0x7ff && 0 < p < 0x1_0000_0000 && 0x1_0000_0000 % p == 0
    ensures var j := Wrap(x.lo + p);
      && 0 <= j - j % p
      && var r := Double(if j < x.lo then Wrap(x.hi + 1) else x.hi, j - j % p);
         Negative(r) == Negative(x) && MagnitudeBits(r) == MagnitudeBits(x) - x.lo % p + p
  {
    CarriedRemainder(x.lo, p);
    var j := Wrap(x.lo + p);
    DivAtMostMod(j, p);
    hide Wrap;
    if j < x.lo {
      HighMore(x, Double(Wrap(x.hi + 1), j - j % p));
    } else {
      HighSame(x, Double(x.hi, j - j % p));
    }
  }

  lemma HighSame(x: Double, r: Double)
    requires r.hi == x.hi
    ensures Negative(r) == Negative(x) && MagnitudeBits(r) == MagnitudeBits(x) - x.lo + r.lo
  {
  }

  lemma HighMore(x: Double, r: Double)
    requires ExponentField(x) < 0x7ff && r.hi == Wrap(x.hi + 1)
    ensures Negative(r) == Negative(x) && MagnitudeBits(r) == MagnitudeBits(x) - x.lo + 0x1_0000_0000 + r.lo
  {
  }

  /** A carry out of the low word changes no bit that is kept. */
  lemma CarriedRemainder(lo: Word, p: nat)
    requires 0 < p < 0x1_0000_0000 && 0x1_0000_0000 % p == 0
    ensures var j := Wrap(lo + p);
      && j % p == lo % p
      && j == (if j < lo then lo + p - 0x1_0000_0000 else lo + p)
  {
    var j, m := Wrap(lo + p), 0x1_0000_0000 / p;
    SameRemainder(lo + p, lo, p, 1);
    if lo + p >= 0x1_0000_0000 {
      assert 0x1_0000_0000 == p * m;
      NegatedProduct(p, m);
      SameRemainder(j, lo + p, p, -m);
    }
  }

  lemma NegatedProduct(p: int, m: int)
    ensures p * -m == -(p * m)
  {
  }

  // ---------------------------------------------------------------- values

  lemma {:induction false} UpNegated(c: int, n: nat)
    ensures Up(-c, n) == -Up(c, n)
  {
    if n != 0 {
      UpNegated(c, n - 1);
    }
  }

  /** An integral double is its own floor and ceiling. */
  lemma IntegralStays(x: Double, q: int)
    requires Finite(x) && Magnitude(x) == Whole(q)
    ensures IsFloor(x, x) && IsCeil(x, x)
  {
    var n := if Negative(x) then -q else q;
    UpNegated(q, 1074);
    UpOrder(n, n + 1, 1074);
    UpOrder(n - 1, n, 1074);
    assert Value(x) == Whole(n) < Whole(n + 1) && Whole(n - 1) < Value(x);
  }

  lemma LargeIsIntegral(x: Double)
    requires Finite(x) && ExponentField(x) >= 0x433
    ensures IsFloor(x, x) && IsCeil(x, x)
  {
    var e := ExponentField(x) - 0x433;
    UpTwice(Significand(x), e, 1074);
    IntegralStays(x, Up(Significand(x), e));
  }

  lemma NoTailIsIntegral(x: Double)
    requires 0x3ff <= ExponentField(x) < 0x433 && Tail(x) == 0
    ensures IsFloor(x, x) && IsCeil(x, x)
  {
    MagnitudeParts(x);
    IntegralStays(x, IntegerPart(x));
  }

  /** Away from zero for a negative floor and a positive ceiling, towards zero for the others. */
  lemma CutRounds(x: Double, r: Double, more: bool)
    requires 0x3ff <= ExponentField(x) < 0x433 && Tail(x) != 0 && Cut(x, r, more)
    ensures more == Negative(x) ==> IsFloor(x, r)
    ensures more == !Negative(x) ==> IsCeil(x, r)
  {
    TailGone(x, r, more);
    MagnitudeParts(x);
    var q: int := IntegerPart(x);
    hide Magnitude, Whole, Tail, IntegerPart, Cut;
    WholeNegated(q);
    WholeNegated(q + 1);
    if Negative(x) {
      assert Whole(-(q + 1)) < Value(x) < Whole(-q);
      if more {
        assert Value(r) == Whole(-(q + 1)) && -(q + 1) + 1 == -q;
      } else {
        assert Value(r) == Whole(-q) && -q - 1 == -(q + 1);
      }
    } else {
      assert Whole(q) < Value(x) < Whole(q + 1);
      if more {
        assert Value(r) == Whole(q + 1) && q + 1 - 1 == q;
      } else {
        assert Value(r) == Whole(q);
      }
    }
  }

  lemma WholeNegated(n: int)
    ensures Whole(-n) == -Whole(n)
  {
    UpNegated(n, 1074);
  }

  const PLUS_ZERO := Double(0, 0)
  const MINUS_ZERO := Double(0x8000_0000, 0)
  const PLUS_ONE := Double(0x3ff0_0000, 0)
  const MINUS_ONE := Double(0xbff0_0000, 0)

  lemma WholeOne()
    ensures Up(0x10_0000_0000_0000, 1022) == Whole(1)
  {
    UpTimes(1, 52);
    Pow2Values();
    UpTwice(1, 52, 1022);
  }

  lemma OneMagnitude(x: Double)
    requires AbsHi(x) == 0x3ff0_0000 && x.lo == 0
    ensures Finite(x) && Magnitude(x) == Whole(1) && !IsZero(x)
  {
    assert Significand(x) == 0x10_0000_0000_0000 && Scale(x) == 1022;
    hide Up;
    WholeOne();
  }

  lemma OnesAndZeros()
    ensures Value(PLUS_ZERO) == Whole(0) == 0 && Value(MINUS_ZERO) == Whole(0)
    ensures Value(PLUS_ONE) == Whole(1) && Value(MINUS_ONE) == Whole(-1)
    ensures IsZero(PLUS_ZERO) && IsZero(MINUS_ZERO) && !IsZero(PLUS_ONE) && !IsZero(MINUS_ONE)
    ensures Finite(PLUS_ZERO) && Finite(MINUS_ZERO) && Finite(PLUS_ONE) && Finite(MINUS_ONE)
  {
    hide Magnitude, Up;
    UpZero(1074);
    ZeroMagnitude(PLUS_ZERO);
    ZeroMagnitude(MINUS_ZERO);
    OneMagnitude(PLUS_ONE);
    OneMagnitude(MINUS_ONE);
    WholeNegated(1);
  }

  lemma SmallBelowOne(x: Double)
    requires ExponentField(x) < 0x3ff
    ensures Magnitude(x) < Whole(1) && (Magnitude(x) == 0 <==> IsZero(x))
  {
    LowerScale(Significand(x), Scale(x), 1022);
    WholeOne();
    ZeroMagnitude(x);
  }

  /** Between -1 and 1. */
  lemma SmallRounds(x: Double)
    requires ExponentField(x) < 0x3ff
    ensures IsFloor(x, if !Negative(x) then PLUS_ZERO else if IsZero(x) then x else MINUS_ONE)
    ensures IsCeil(x, if Negative(x) then MINUS_ZERO else if IsZero(x) then x else PLUS_ONE)
  {
    hide IsFloor, IsCeil, Magnitude, Whole, AbsHi;
    SmallBelowOne(x);
    OnesAndZeros();
    WholeNegated(1);
    assert Finite(x);
    SmallFloor(x, if !Negative(x) then PLUS_ZERO else if IsZero(x) then x else MINUS_ONE);
    SmallCeil(x, if Negative(x) then MINUS_ZERO else if IsZero(x) then x else PLUS_ONE);
  }

  lemma SmallFloor(x: Double, r: Double)
    requires Finite(x) && Finite(r) && Whole(0) == 0 && Whole(-1) == -Whole(1) && -Whole(1) < Value(x) < Whole(1)
    requires Value(r) == if Value(x) < 0 then Whole(-1) else 0
    requires IsZero(r) ==> Negative(r) == Negative(x)
    ensures IsFloor(x, r)
  {
    hide Value, Whole, IsZero;
    assert Whole(0 + 1) == Whole(1) && Whole(-1 + 1) == 0;
    if Value(x) < 0 {
      assert Value(r) == Whole(-1) && Whole(-1) <= Value(x) < Whole(-1 + 1);
    } else {
      assert Value(r) == Whole(0) && Whole(0) <= Value(x) < Whole(0 + 1);
    }
  }

  lemma SmallCeil(x: Double, r: Double)
    requires Finite(x) && Finite(r) && Whole(0) == 0 && Whole(-1) == -Whole(1) && -Whole(1) < Value(x) < Whole(1)
    requires Value(r) == if Value(x) > 0 then Whole(1) else 0
    requires IsZero(r) ==> Negative(r) == Negative(x)
    ensures IsCeil(x, r)
  {
    hide Value, Whole, IsZero;
    assert Whole(0 - 1) == Whole(-1) && Whole(1 - 1) == 0;
    if Value(x) > 0 {
      assert Value(r) == Whole(1) && Whole(1 - 1) < Value(x) <= Whole(1);
    } else {
      assert Value(r) == Whole(0) && Whole(0 - 1) < Value(x) <= Whole(0);
    }
  }

  // ---------------------------------------------------------------- floor and ceil

  lemma {:induction false} HighMask(x: Double, a: Word)
    requires 0x3ff <= ExponentField(x) < 0x413
    ensures var j0 := ExponentField(x) - 0x3ff;
      Shr(0x10_0000, j0) == HighUnit(x) && And(a, Shr(0xf_ffff, j0)) == a % HighUnit(x)
  {
    Pow2Values();
    OnesShifted(20, ExponentField(x) - 0x3ff);
    AndMask(a, 0x413 - ExponentField(x));
  }

  lemma {:induction false} LowMask(x: Double, a: Word)
    requires 0x413 <= ExponentField(x) < 0x433
    ensures var j0 := ExponentField(x) - 0x3ff;
      && And(a, Shr(0xffff_ffff, j0 - 20)) == a % Pow2(FractionBits(x))
      && (j0 > 20 ==> Shl(1, 52 - j0) == Pow2(FractionBits(x)))
  {
    Pow2Values();
    var k := FractionBits(x);
    OnesShifted(32, 32 - k);
    AndMask(a, k);
    if k < 32 {
      Pow2Monotonic(k, 31);
      WrapNoop(Pow2(k));
    }
  }

  /** Exponents 0 to 19. */
  method RoundHigh(x: Double, more: bool) returns (r: Double)
    requires 0x3ff <= ExponentField(x) < 0x413
    ensures if Tail(x) == 0 then r == x else Cut(x, r, more)
  {
    hide And, Shr, Pow2, Cut, Tail, HighUnit, Significand, AbsHi, Wrap;
    var i0: int, i1: int, j0 := x.hi, x.lo, ExponentField(x) - 0x3ff;
    var i := Shr(0xf_ffff, j0);
    TailOfHigh(x);
    HighMask(x, x.hi);
    if And(i0, i) == 0 && i1 == 0 {
      return x;
    }
    HighCut(x, more);
    if more {
      WrapNoop(i0 + HighUnit(x));
      i0 := Wrap(i0 + Shr(0x10_0000, j0));
    }
    HighMask(x, i0);
    i0 := AndNot(i0, i);
    i1 := 0;
    r := Double(i0, i1);
  }

  /** Exponents 20 to 51. */
  method RoundLow(x: Double, more: bool) returns (r: Double)
    requires 0x413 <= ExponentField(x) < 0x433
    ensures if Tail(x) == 0 then r == x else Cut(x, r, more)
  {
    hide And, Shr, Shl, Pow2, Cut, Tail, Significand;
    var i0: int, i1: int, j0 := x.hi, x.lo, ExponentField(x) - 0x3ff;
    var i := Shr(0xffff_ffff, j0 - 20);
    TailOfLow(x);
    LowMask(x, x.lo);
    if And(i1, i) == 0 {
      return x;
    }
    LowCut(x, more);
    if more {
      if j0 == 20 {
        i0 := Wrap(i0 + 1);
      } else {
        var j := Wrap(i1 + Shl(1, 52 - j0));
        if j < i1 {
          i0 := Wrap(i0 + 1);
        }
        i1 := j;
      }
    }
    LowMask(x, i1);
    WordRemainder(x);
    i1 := AndNot(i1, i);
    r := Double(i0, i1);
  }

  /** With 32 bits behind the point the whole low word goes. */
  lemma WordRemainder(x: Double)
    requires 0x413 <= ExponentField(x) < 0x433
    ensures ExponentField(x) == 0x413 ==> Pow2(FractionBits(x)) == 0x1_0000_0000
  {
    Pow2Values();
  }

  /** `floor` */
  method Floor(x: Double) returns (r: Double)
    ensures Finite(x) ==> IsFloor(x, r)
    ensures IsInfinite(x) ==> r == x
    ensures IsNaN(x) ==> r == NAN
  {
    hide IsFloor, IsCeil, Tail, Significand, Cut;
    var i0, i1, j0 := x.hi, x.lo, ExponentField(x) - 0x3ff;
    if j0 < 0 {
      SmallRounds(x);
      if Signed(i0) >= 0 {
        i0, i1 := 0, 0;
      } else if !IsZero(x) {
        i0, i1 := 0xbff0_0000, 0;
      }
      return Double(i0, i1);
    }
    if j0 > 51 {
      if j0 == 0x400 {
        return if IsInfinite(x) then x else NAN;
      }
      LargeIsIntegral(x);
      return x;
    }
    if j0 < 20 {
      r := RoundHigh(x, Signed(i0) < 0);
    } else {
      r := RoundLow(x, Signed(i0) < 0);
    }
    if Tail(x) == 0 {
      NoTailIsIntegral(x);
    } else {
      CutRounds(x, r, Negative(x));
    }
  }

  /** `ceil` */
  method Ceil(x: Double) returns (r: Double)
    ensures Finite(x) ==> IsCeil(x, r)
    ensures IsInfinite(x) ==> r == x
    ensures IsNaN(x) ==> r == NAN
  {
    hide IsFloor, IsCeil, Tail, Significand, Cut;
    var i0, i1, j0 := x.hi, x.lo, ExponentField(x) - 0x3ff;
    if j0 < 0 {
      SmallRounds(x);
      if Signed(i0) < 0 {
        i0, i1 := 0x8000_0000, 0;
      } else if !(i0 == 0 && i1 == 0) {
        i0, i1 := 0x3ff0_0000, 0;
      }
      return Double(i0, i1);
    }
    if j0 > 51 {
      if j0 == 0x400 {
        return if IsInfinite(x) then x else NAN;
      }
      LargeIsIntegral(x);
      return x;
    }
    if j0 < 20 {
      r := RoundHigh(x, Signed(i0) > 0);
    } else {
      r := RoundLow(x, Signed(i0) > 0);
    }
    if Tail(x) == 0 {
      NoTailIsIntegral(x);
    } else {
      CutRounds(x, r, !Negative(x));
    }
  }

  // ---------------------------------------------------------------- uniqueness

  function Opposite(x: Double): (r: Double)
    ensures Negative(r) != Negative(x) && MagnitudeBits(r) == MagnitudeBits(x)
  {
    Double(if x.hi >= SIGN_BIT then x.hi - SIGN_BIT else x.hi + SIGN_BIT, x.lo)
  }

  lemma OppositeValue(x: Double)
    requires Finite(x)
    ensures Finite(Opposite(x)) && Value(Opposite(x)) == -Value(x) && IsZero(Opposite(x)) == IsZero(x)
    ensures Opposite(Opposite(x)) == x
  {
    MagnitudeOrder(x, Opposite(x));
  }

  /** Whatever is the ceiling of -x is minus the floor of x, and minus its floor the ceiling. */
  lemma FloorIsMinusCeil(x: Double, floor: Double, ceil: Double)
    requires Finite(x) && IsFloor(x, floor) && IsCeil(Opposite(x), ceil)
    ensures floor == Opposite(ceil)
  {
    hide Magnitude, MagnitudeBits, Whole, Value, Negative, Opposite, IsZero, Finite;
    OppositeValue(x);
    OppositeValue(ceil);
    var n: int :| Value(floor) == Whole(n) && Whole(n) <= Value(x) < Whole(n + 1);
    var m: int :| Value(ceil) == Whole(m) && Whole(m - 1) < Value(Opposite(x)) <= Whole(m);
    WholeNegated(m);
    WholeNegated(m - 1);
    SameFloor(Value(x), n, -m);
    SameDouble(floor, Opposite(ceil));
  }

  lemma SameFloor(v: int, n: int, m: int)
    requires Whole(n) <= v < Whole(n + 1) && Whole(m) <= v < Whole(m + 1)
    ensures n == m
  {
    UpOrder(n, m + 1, 1074);
    UpOrder(m, n + 1, 1074);
  }

  lemma SameDouble(x: Double, y: Double)
    requires Finite(x) && Finite(y) && Value(x) == Value(y)
    requires IsZero(x) && IsZero(y) ==> Negative(x) == Negative(y)
    ensures x == y
  {
    ZeroMagnitude(x);
    ZeroMagnitude(y);
    MagnitudeDetermines(x, if Negative(x) == Negative(y) then y else x);
  }

  lemma ZeroMagnitude(x: Double)
    requires Finite(x)
    ensures Magnitude(x) == 0 <==> IsZero(x)
  {
    UpZero(Scale(x));
    UpOrder(0, Significand(x), Scale(x));
  }
}
