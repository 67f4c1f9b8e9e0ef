/** IEEE 754 binary64 values as the pair of 32-bit words that __HI and __LO read.
    Every finite double is an integer multiple of 2^-1074, so magnitudes are given as the integer
    |x| * 2^1074 and all statements about them are statements about integers. */
module Doubles {
  import opened Words

  datatype Double = Double(hi: Word, lo: Word)

  const NAN := Double(0x7ff8_0000, 0)

  predicate Negative(x: Double) {
    x.hi >= SIGN_BIT
  }

  /** The high word without its sign bit. */
  function AbsHi(x: Double): (h: int)
    ensures 0 <= h < 0x8000_0000
  {
    if x.hi >= SIGN_BIT then x.hi - SIGN_BIT else x.hi
  }

  function ExponentField(x: Double): (e: int)
    ensures 0 <= e < 0x800
  {
    AbsHi(x) / 0x10_0000
  }

  function Fraction(x: Double): (f: int)
    ensures 0 <= f < 0x10_0000_0000_0000
  {
    (AbsHi(x) % 0x10_0000) * 0x1_0000_0000 + x.lo
  }

  /** The 63 bits below the sign, in the order of magnitudes. */
  function MagnitudeBits(x: Double): (b: int)
    ensures b == ExponentField(x) * 0x10_0000_0000_0000 + Fraction(x)
  {
    AbsHi(x) * 0x1_0000_0000 + x.lo
  }

  predicate Finite(x: Double) {
    ExponentField(x) < 0x7ff
  }

  predicate IsInfinite(x: Double) {
    ExponentField(x) == 0x7ff && Fraction(x) == 0
  }

  predicate IsNaN(x: Double) {
    ExponentField(x) == 0x7ff && Fraction(x) != 0
  }

  predicate IsZero(x: Double) {
    AbsHi(x) == 0 && x.lo == 0
  }

  /** The significand as an integer below 2^53; subnormals have no implicit bit. */
  function Significand(x: Double): (c: int)
    ensures 0 <= c < 0x20_0000_0000_0000
  {
    if ExponentField(x) == 0 then Fraction(x) else 0x10_0000_0000_0000 + Fraction(x)
  }

  /** The power of two that scales the significand, in units of 2^-1074. */
  function Scale(x: Double): nat {
    if ExponentField(x) == 0 then 0 else ExponentField(x) - 1
  }

  /** |x| * 2^1074 for a finite x. */
  function Magnitude(x: Double): nat {
    UpGrows(Significand(x), 0, Scale(x));
    Up(Significand(x), Scale(x))
  }

  /** x * 2^1074 for a finite x. */
  function Value(x: Double): int {
    var m: int := Magnitude(x);
    if Negative(x) then -m else m
  }

  /** A significand c at a smaller scale d stays below the normal significands at scale e. */
  lemma {:induction false} LowerScale(c: nat, d: nat, e: nat)
    requires c < 0x20_0000_0000_0000 && d < e
    ensures Up(c, d) < Up(0x10_0000_0000_0000, e)
  {
    UpOrder(c, 0x20_0000_0000_0000, d);
    UpSum(0x10_0000_0000_0000, 0, d);
    assert Up(0x10_0000_0000_0000, d + 1) == 2 * Up(0x10_0000_0000_0000, d);
    UpGrows(0x10_0000_0000_0000, d + 1, e);
  }

  /** Magnitudes are ordered exactly as their bit patterns. */
  lemma MagnitudeOrder(x: Double, y: Double)
    requires Finite(x) && Finite(y)
    ensures MagnitudeBits(x) < MagnitudeBits(y) <==> Magnitude(x) < Magnitude(y)
    ensures MagnitudeBits(x) == MagnitudeBits(y) <==> Magnitude(x) == Magnitude(y)
  {
    if MagnitudeBits(x) < MagnitudeBits(y) {
      MagnitudeIncreases(x, y);
    } else if MagnitudeBits(x) > MagnitudeBits(y) {
      MagnitudeIncreases(y, x);
    } else {
      assert ExponentField(x) == ExponentField(y) && Fraction(x) == Fraction(y);
    }
  }

  lemma MagnitudeIncreases(x: Double, y: Double)
    requires Finite(x) && Finite(y) && MagnitudeBits(x) < MagnitudeBits(y)
    ensures Magnitude(x) < Magnitude(y)
  {
    assert ExponentField(x) <= ExponentField(y);
    if Scale(x) == Scale(y) {
      assert Significand(x) < Significand(y);
      UpOrder(Significand(x), Significand(y), Scale(x));
    } else {
      LowerScale(Significand(x), Scale(x), Scale(y));
      assert Significand(y) >= 0x10_0000_0000_0000;
      UpOrder(0x10_0000_0000_0000, Significand(y), Scale(y));
    }
  }

  /** Two doubles with the same sign and magnitude are the same pair of words. */
  lemma MagnitudeDetermines(x: Double, y: Double)
    requires Finite(x) && Finite(y) && Magnitude(x) == Magnitude(y) && Negative(x) == Negative(y)
    ensures x == y
  {
    MagnitudeOrder(x, y);
  }

  /** Finite values, infinities and NaNs in terms of the high word. */
  lemma HighWordRange(x: Double)
    ensures Finite(x) <==> AbsHi(x) < 0x7ff0_0000
    ensures IsInfinite(x) <==> AbsHi(x) == 0x7ff0_0000 && x.lo == 0
  {
    assert AbsHi(x) == ExponentField(x) * 0x10_0000 + AbsHi(x) % 0x10_0000;
  }
}
