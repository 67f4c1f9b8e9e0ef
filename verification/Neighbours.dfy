/** jerry-math/nextafter.c: the neighbour of a double in the direction of another one. */
module Neighbours {
  import opened Words
  import opened Doubles

  /** The place of a double in the numeric order, infinities included; both zeros are at 0. */
  function Place(x: Double): int {
    if Negative(x) then -MagnitudeBits(x) else MagnitudeBits(x)
  }

  /** Places are ordered as values. */
  lemma PlaceOrder(x: Double, y: Double)
    requires Finite(x) && Finite(y)
    ensures Place(x) < Place(y) <==> Value(x) < Value(y)
    ensures Place(x) == Place(y) <==> Value(x) == Value(y)
  {
    hide Magnitude;
    MagnitudeOrder(x, y);
    MagnitudeOrder(y, x);
    ZeroPlace(x);
    ZeroPlace(y);
  }

  lemma ZeroPlace(x: Double)
    requires Finite(x)
    ensures MagnitudeBits(x) == 0 <==> Magnitude(x) == 0
  {
    MagnitudeOrder(Double(0, 0), x);
    assert Significand(Double(0, 0)) == 0;
    UpSum(0, 0, 0);
  }

  /** A place and a sign determine the words. */
  lemma PlaceDetermines(x: Double, y: Double)
    requires Place(x) == Place(y) && Negative(x) == Negative(y)
    ensures x == y
  {
    assert MagnitudeBits(x) == MagnitudeBits(y);
    assert AbsHi(x) == MagnitudeBits(x) / 0x1_0000_0000 && x.lo == MagnitudeBits(x) % 0x1_0000_0000;
    assert AbsHi(y) == MagnitudeBits(y) / 0x1_0000_0000 && y.lo == MagnitudeBits(y) % 0x1_0000_0000;
  }

  function Sign(n: int): int {
    if n < 0 then -1 else if n > 0 then 1 else 0
  }

  /** The comparison of the words as C makes it, for x > 0 and for x < 0. */
  lemma WordOrder(x: Double, y: Double)
    requires Place(x) != Place(y) && Place(x) != 0
    ensures !Negative(x) ==> ((Signed(x.hi) > Signed(y.hi) || (x.hi == y.hi && x.lo > y.lo)) <==> Place(x) > Place(y))
    ensures Negative(x) ==>
      ((Signed(y.hi) >= 0 || Signed(x.hi) > Signed(y.hi) || (x.hi == y.hi && x.lo > y.lo)) <==> Place(x) < Place(y))
  {
  }

  /** The words as one 64-bit integer. */
  lemma WordsBits(x: Double)
    ensures Pair(x.hi, x.lo) == MagnitudeBits(x) + if Negative(x) then 0x8000_0000_0000_0000 else 0
    ensures MagnitudeBits(x) < 0x8000_0000_0000_0000
  {
  }

  lemma LessOne(hi: Word, lo: Word)
    requires Pair(hi, lo) > 0
    ensures Pair(if lo == 0 then Wrap(hi - 1) else hi, Wrap(lo - 1)) == Pair(hi, lo) - 1
  {
  }

  lemma MoreOne(hi: Word, lo: Word)
    requires Pair(hi, lo) < 0xffff_ffff_ffff_ffff
    ensures Pair(if Wrap(lo + 1) == 0 then Wrap(hi + 1) else hi, Wrap(lo + 1)) == Pair(hi, lo) + 1
  {
  }

  /** One unit less or more in the words, with the borrow or the carry. */
  method StepWords(x: Double, down: bool) returns (r: Double)
    requires down ==> MagnitudeBits(x) > 0
    requires !down ==> MagnitudeBits(x) < 0x7ff0_0000_0000_0000
    ensures Negative(r) == Negative(x) && MagnitudeBits(r) == if down then MagnitudeBits(x) - 1 else MagnitudeBits(x) + 1
  {
    hide Wrap, MagnitudeBits, Negative, Pair;
    WordsBits(x);
    var hx: int, lx: int := x.hi, x.lo;
    if down {
      LessOne(x.hi, x.lo);
      if lx == 0 {
        hx := Wrap(hx - 1);
      }
      lx := Wrap(lx - 1);
    } else {
      MoreOne(x.hi, x.lo);
      lx := Wrap(lx + 1);
      if lx == 0 {
        hx := Wrap(hx + 1);
      }
    }
    r := Double(hx, lx);
    WordsBits(r);
  }

  /** `nextafter`: x itself if y is no other number, and the adjacent double in the direction of y otherwise. */
  method Nextafter(x: Double, y: Double) returns (r: Double)
    ensures IsNaN(x) || IsNaN(y) ==> r == NAN
    ensures !IsNaN(x) && !IsNaN(y) ==> !IsNaN(r) && Place(r) == Place(x) + Sign(Place(y) - Place(x))
    ensures !IsNaN(x) && !IsNaN(y) && Place(x) == Place(y) ==> r == x
    ensures !IsNaN(x) && !IsNaN(y) && Place(x) != Place(y) ==> Negative(r) == if IsZero(x) then Negative(y) else Negative(x)
  {
    if IsNaN(x) || IsNaN(y) {
      return NAN;
    }
    NumberBits(x);
    NumberBits(y);
    ZeroBits(x);
    ZeroBits(y);
    if x == y || (IsZero(x) && IsZero(y)) {
      return x;
    }
    if IsZero(x) {
      r := Double(if y.hi >= SIGN_BIT then SIGN_BIT else 0, 1);
      LeastBits(r);
      NumberBits(r);
      return;
    }
    DifferentPlaces(x, y);
    WordOrder(x, y);
    hide AbsHi, IsNaN, IsZero, MagnitudeBits;
    if Signed(x.hi) >= 0 {
      var down := Signed(x.hi) > Signed(y.hi) || (x.hi == y.hi && x.lo > y.lo);
      r := StepWords(x, down);
    } else {
      var down := Signed(y.hi) >= 0 || Signed(x.hi) > Signed(y.hi) || (x.hi == y.hi && x.lo > y.lo);
      r := StepWords(x, down);
    }
    NumberBits(r);
  }

  lemma ZeroBits(x: Double)
    ensures IsZero(x) <==> MagnitudeBits(x) == 0
  {
  }

  lemma LeastBits(x: Double)
    requires x.lo == 1 && (x.hi == 0 || x.hi == SIGN_BIT)
    ensures MagnitudeBits(x) == 1
  {
  }

  lemma NumberBits(x: Double)
    ensures !IsNaN(x) <==> MagnitudeBits(x) <= 0x7ff0_0000_0000_0000
  {
  }

  lemma DifferentPlaces(x: Double, y: Double)
    requires x != y && !(IsZero(x) && IsZero(y))
    ensures Place(x) != Place(y)
  {
    hide IsZero, MagnitudeBits, Negative;
    ZeroBits(x);
    ZeroBits(y);
    if Place(x) == Place(y) && Negative(x) == Negative(y) {
      PlaceDetermines(x, y);
    }
  }

  /** What Nextafter promises, for numbers. */
  predicate NextTo(x: Double, y: Double, r: Double) {
    && !IsNaN(r) && Place(r) == Place(x) + Sign(Place(y) - Place(x))
    && (Place(x) == Place(y) ==> r == x)
    && (Place(x) != Place(y) ==> Negative(r) == if IsZero(x) then Negative(y) else Negative(x))
  }

  /** There is no double strictly between x and its neighbour. */
  lemma NoneBetween(x: Double, y: Double, r: Double, d: Double)
    requires Finite(x) && !IsNaN(y) && NextTo(x, y, r) && Finite(r) && Finite(d)
    ensures !(Value(x) < Value(d) < Value(r)) && !(Value(r) < Value(d) < Value(x))
  {
    hide Value;
    PlaceOrder(x, d);
    PlaceOrder(d, x);
    PlaceOrder(r, d);
    PlaceOrder(d, r);
  }

  /** A step up and a step down lead back to the same double, if the step up does not overflow, for all but the negative
      zero, which comes back as the positive one. */
  lemma UpAndDown(x: Double, y: Double, up: Double, z: Double, back: Double)
    requires Finite(x) && !IsNaN(y) && NextTo(x, y, up) && Place(x) < Place(y)
    requires Finite(up) && !IsNaN(z) && NextTo(up, z, back) && Place(z) < Place(up)
    ensures back == x <==> !(IsZero(x) && Negative(x))
    ensures Value(back) == Value(x)
  {
    hide AbsHi, IsNaN, IsZero, MagnitudeBits, Value;
    ZeroBits(x);
    ZeroBits(up);
    FinitePlace(x);
    FinitePlace(back);
    assert Place(back) == Place(x);
    PlaceOrder(back, x);
    if !(IsZero(x) && Negative(x)) {
      PlaceDetermines(back, x);
    }
  }

  lemma FinitePlace(x: Double)
    ensures Finite(x) <==> -0x7ff0_0000_0000_0000 < Place(x) < 0x7ff0_0000_0000_0000
  {
  }
}
