/** The bit-by-bit square root of jerry-math/sqrt.c. The method works on the same word variables as the
    original; its contract says that the result is the correctly rounded root (section 5.4.1 of
    IEEE 754-2008), compared against every other double. */
module Sqrt {
  import opened Words
  import opened Doubles

  /** The rounding direction of the floating-point unit, which the final additions of `tiny` detect. */
  datatype Rounding = ToNearest | Upward | Downward

  /** r is the root of x, rounded in the given direction. With T = |x| * 2^1074 scaled once more by
      2^1074, Magnitude(r) is compared with the square root of T by comparing squares. */
  ghost predicate CorrectlyRoundedRoot(x: Double, r: Double, mode: Rounding) {
    && Finite(r) && !Negative(r)
    && var t := Unit(Magnitude(x));
    && (mode.Upward? ==> t <= Magnitude(r) * Magnitude(r))
    && (mode.Downward? ==> Magnitude(r) * Magnitude(r) <= t)
    && forall d: Double | Finite(d) && !Negative(d) && Magnitude(d) != Magnitude(r) ::
         Beats(Magnitude(r), Magnitude(d), t, mode)
  }

  /** A magnitude in units of 2^-2148. */
  function Unit(magnitude: nat): nat {
    UpGrows(magnitude, 0, 1074);
    Up(magnitude, 1074)
  }

  /** The candidate r is strictly the better answer than d for the root of t. */
  predicate Beats(r: nat, d: nat, t: nat, mode: Rounding) {
    match mode
    case ToNearest =>
      // the midpoint of d and r lies on d's side of the root, and is never the root itself
      if d < r then (d + r) * (d + r) < 4 * t else 4 * t < (d + r) * (d + r)
    case Upward => d < r ==> d * d < t
    case Downward => d > r ==> t < d * d
  }

  // ---------------------------------------------------------------- normalisation

  /** `hi += hi + ((lo & sign) >> 31); lo += lo;` doubles the pair. */
  method DoublePair(a0: int, a1: Word) returns (hi: int, lo: Word)
    ensures Pair(hi, lo) == 2 * Pair(a0, a1)
  {
    Pow2Values();
    SignBitTest(a1);
    hi := a0 + a0 + Shr(And(a1, SIGN_BIT), 31);
    lo := Wrap(a1 + a1);
    if a1 < SIGN_BIT {
      WrapNoop(a1 + a1);
    } else {
      assert Wrap(a1 + a1) == a1 + a1 - 0x1_0000_0000;
    }
  }

  /** The shift by 32 that line 146 performs when i is 0 is not defined by C: it yields 0 or ix1. */
  function ShrUpTo32(w: Word, n: nat, keepsOn32: bool): Word
    requires n <= 32
  {
    if n == 32 then (if keepsOn32 then w else 0) else Shr(w, n)
  }

  /** Lines 131-149: brings the significand to 53 bits. `m` is the biased exponent that the significand
      then has; the bits of ix0 above the 20 fraction bits are cleared by the mask that follows. */
  method Normalize(x: Double, keepsOn32: bool) returns (ix0: Word, ix1: Word, m: int)
    requires Finite(x) && !Negative(x) && !IsZero(x)
    ensures -51 <= m < 0x7ff
    ensures Up(Magnitude(x), 52) == Up(Pair(0x10_0000 + ix0 % 0x10_0000, ix1), m + 51)
  {
    Pow2Values();
    ix0, ix1 := x.hi, x.lo;
    m := Shr(ix0, 20);
    if m == 0 {
      ix0, ix1, m := NormalizeSubnormal(x, keepsOn32);
    } else {
      assert Pair(0x10_0000 + ix0 % 0x10_0000, ix1) == Significand(x);
      UpTwice(Significand(x), m - 1, 52);
    }
  }

  /** Lines 133-148 for a subnormal argument. */
  method NormalizeSubnormal(x: Double, keepsOn32: bool) returns (ix0: Word, ix1: Word, m: int)
    requires ExponentField(x) == 0 && !Negative(x) && !IsZero(x)
    ensures -51 <= m <= 0
    ensures Up(Magnitude(x), 52) == Up(Pair(0x10_0000 + ix0 % 0x10_0000, ix1), m + 51)
  {
    ix0, ix1, m := x.hi, x.lo, 0;
    ghost var v := Magnitude(x);
    ghost var k: nat := 0; // the pair is v * 2^k
    while ix0 == 0
      invariant 0 <= ix0 < 0x20_0000 && m == 0 - k
      invariant Pair(ix0, ix1) == Up(v, k) < 0x20_0000_0000_0000
      invariant k > 0 ==> ix1 % 0x20_0000 == 0
      invariant k == 0 ==> ix0 < 0x10_0000
      decreases 53 - k
    {
      CoarseShift(v, k, ix1);
      ix0 := Or(ix0, Shr(ix1, 11));
      ix1 := Shl(ix1, 21);
      m := m - 21;
      k := k + 21;
    }
    ix0, ix1, m := NormalizeFine(ix0, ix1, m, keepsOn32, v, k);
  }

  /** Lines 141-147. */
  method NormalizeFine(h: Word, lo: Word, m0: int, keepsOn32: bool, ghost v: nat, ghost k: nat)
    returns (ix0: Word, ix1: Word, m: int)
    requires v > 0 && m0 == 0 - k && Pair(h, lo) == Up(v, k)
    requires 0 < h < if k == 0 then 0x10_0000 else 0x20_0000
    requires k > 0 ==> lo % 0x20_0000 == 0
    ensures -51 <= m <= 0
    ensures Up(v, 52) == Up(Pair(0x10_0000 + ix0 % 0x10_0000, ix1), m + 51)
  {
    ix0, ix1, m := h, lo, m0;
    var i := 0;
    while And(ix0, 0x10_0000) == 0
      invariant 0 <= i <= 20 && 0 < ix0 < 0x20_0000
      invariant ix0 == Up(h, i)
      decreases 20 - i
    {
      TopBitTest(ix0);
      FineShift(h, i, ix0);
      ix0 := Shl(ix0, 1);
      i := i + 1;
    }
    TopBitTest(ix0);
    FinishShift(v, k, h, ix1, i, ShrUpTo32(ix1, 32 - i, keepsOn32));
    m := m - (i - 1);
    ix0 := Or(ix0, ShrUpTo32(ix1, 32 - i, keepsOn32));
    ix1 := Shl(ix1, i);
  }

  lemma {:induction false} TopBitTest(h: nat)
    requires h < 0x20_0000
    ensures And(h, 0x10_0000) == 0 <==> h < 0x10_0000
  {
    Pow2Values();
    AndBit(h, 20);
  }

  /** Lines 137-139: with an empty high word, the pair moves up by 21 bits. */
  lemma {:induction false} CoarseShift(v: nat, k: nat, lo: Word)
    requires v > 0 && lo == Up(v, k)
    ensures k < 32
    ensures Pair(Shr(lo, 11), Shl(lo, 21)) == Up(v, k + 21) < 0x20_0000_0000_0000
    ensures 0 <= Shr(lo, 11) < 0x20_0000 && Shl(lo, 21) % 0x20_0000 == 0
  {
    Pow2Values();
    UpBound(v, k, 32);
    ShiftSplit(lo, 21);
    UpTwice(v, k, 21);
    UpTimes(lo, 21);
  }

  /** Line 143: the high word moves up by one bit. */
  lemma {:induction false} FineShift(h: nat, i: nat, hi: nat)
    requires h > 0 && hi == Up(h, i) < 0x10_0000
    ensures i < 20
    ensures Shl(hi, 1) == 2 * hi == Up(h, i + 1)
  {
    Pow2Values();
    UpBound(h, i, 20);
    assert Pow2(1) == 2;
  }

  /** Whether the words are shifted or not, the high word gets the bits that the low word loses. */
  lemma {:induction false} ShiftedPair(h: nat, lo: Word, i: nat, carried: Word)
    requires i <= 20 && 0 < h && 0x10_0000 <= Up(h, i) < 0x20_0000
    requires if i == 0 then lo % 0x20_0000 == 0 && carried in {0, lo} else carried == Shr(lo, 32 - i)
    ensures 0 <= Or(Up(h, i), carried) < 0x1_0000_0000
    ensures Pair(0x10_0000 + Or(Up(h, i), carried) % 0x10_0000, Shl(lo, i)) == Up(Pair(h, lo), i)
  {
    if i == 0 {
      hide Or;
      UnshiftedHigh(h, carried);
      WrapNoop(lo);
      assert Pow2(0) == 1;
      assert Up(h, 0) == h && Up(Pair(h, lo), 0) == Pair(h, lo);
    } else {
      hide Or, Pair, Up, Shl, Shr;
      ShiftedHigh(h, lo, i);
      PairUp(h, lo, i);
      AboveLeading(Or(Up(h, i), carried));
    }
  }

  lemma AboveLeading(a: nat)
    requires 0x10_0000 <= a < 0x20_0000
    ensures 0x10_0000 + a % 0x10_0000 == a
  {
  }

  /** The last shift of lines 146-147: `carried` is what the right shift by 32 - i delivered. */
  lemma {:induction false} FinishShift(v: nat, k: nat, h: nat, lo: Word, i: nat, carried: Word)
    requires v > 0 && i <= 20 && 0 < h
    requires Pair(h, lo) == Up(v, k)
    requires 0x10_0000 <= Up(h, i) < 0x20_0000
    requires if i == 0 then k > 0 && lo % 0x20_0000 == 0 && carried in {0, lo} else carried == Shr(lo, 32 - i)
    ensures 1 <= k + i <= 52
    ensures 0 <= Or(Up(h, i), carried) < 0x1_0000_0000
    ensures var ix0 := Or(Up(h, i), carried);
            Up(v, 52) == Up(Pair(0x10_0000 + ix0 % 0x10_0000, Shl(lo, i)), 52 - k - i)
  {
    hide Or, Shl, Shr, Up, Pair;
    ShiftedPair(h, lo, i, carried);
    var shifted := Pair(0x10_0000 + Or(Up(h, i), carried) % 0x10_0000, Shl(lo, i));
    UpTwice(v, k, i);
    assert 0x10_0000_0000_0000 <= shifted < 0x20_0000_0000_0000 by {
      PairRange(0x10_0000 + Or(Up(h, i), carried) % 0x10_0000, Shl(lo, i));
    }
    ShiftCount(v, k + i, shifted);
    assert 1 <= k + i;
  }

  lemma PairRange(h: nat, l: Word)
    requires 0x10_0000 <= h < 0x20_0000
    ensures 0x10_0000_0000_0000 <= Pair(h, l) < 0x20_0000_0000_0000
  {
  }

  lemma {:induction false} ShiftCount(v: nat, total: nat, pair: nat)
    requires v > 0 && pair == Up(v, total) && 0x10_0000_0000_0000 <= pair < 0x20_0000_0000_0000
    ensures total <= 52 && Up(v, 52) == Up(pair, 52 - total)
  {
    Pow2Values();
    UpBound(v, total, 53);
    UpTwice(v, total, 52 - total);
  }

  /** Nothing to shift: what the undefined shift puts into the high word lies above its low 20 bits. */
  lemma {:induction false} UnshiftedHigh(h: nat, carried: Word)
    requires 0x10_0000 <= h < 0x20_0000 && carried % 0x20_0000 == 0
    ensures Or(h, carried) < 0x1_0000_0000
    ensures 0x10_0000 + Or(h, carried) % 0x10_0000 == h
  {
    Pow2Values();
    assert carried % 0x10_0000 == 0;
    OrHighKeepsLow(h, carried, 20);
    OrBound(h, carried, 32);
  }

  /** The bits carried out of the low word fill the gap that the shift left in the high word. */
  lemma {:induction false} ShiftedHigh(h: nat, lo: Word, i: nat)
    requires 1 <= i <= 20 && 0x10_0000 <= Up(h, i) < 0x20_0000
    ensures Or(Up(h, i), Shr(lo, 32 - i)) == Up(h, i) + Shr(lo, 32 - i) < 0x20_0000
    ensures Shr(lo, 32 - i) * 0x1_0000_0000 + Shl(lo, i) == Up(lo, i)
  {
    Pow2Values();
    ShiftSplit(lo, i);
    UpMultiple(h, i);
    OrDisjoint(Up(h, i), Shr(lo, 32 - i), i);
    NextMultiple(h, i, 21 - i);
  }

  // ---------------------------------------------------------------- digits of the root

  /** What every step of the digit-by-digit loops keeps, for the radicand n = m * 2^54.
      x is the pair (ix0, ix1), root the pair (q, q1), and step is twice the bit about to be tried. */
  ghost predicate RootInvariant(n: nat, x: int, root: int, step: int) {
    && 0 <= x && 0 <= root && step > 0
    && 2 * (n - root * root) == x * step
    && n < (root + step) * (root + step)
    && root + step <= 0x40_0000_0000_0000
  }

  /** One step: the bit step / 2 enters the root exactly when the trial subtraction succeeds. */
  lemma RootStep(n: nat, x: int, root: int, half: int)
    requires half > 0 && RootInvariant(n, x, root, 2 * half)
    ensures x < 4 * (root + half)
    ensures 2 * root + half <= x ==> RootInvariant(n, 2 * (x - (2 * root + half)), root + half, half)
    ensures x < 2 * root + half ==> RootInvariant(n, 2 * x, root, half)
  {
    var h := half;
    assert (root + h) * (root + h) == root * root + 2 * (root * h) + h * h;
    assert (root + 2 * h) * (root + 2 * h) == root * root + 4 * (root * h) + 4 * (h * h);
    Remainder(n, x, root, h);
    if 2 * root + h <= x {
      RemainderTaken(x, root, h);
    }
  }

  lemma Remainder(n: nat, x: int, root: int, h: int)
    requires h > 0 && 2 * (n - root * root) == x * (2 * h)
    ensures n == root * root + x * h
    ensures x < 2 * root + h ==> x * h < 2 * (root * h) + h * h
    ensures x * h < 4 * (root * h) + 4 * (h * h) ==> x < 4 * (root + h)
  {
    Products(x, root, h);
    if x < 2 * root + h {
      MulLess(x, 2 * root + h, h);
    } else if x >= 4 * (root + h) {
      MulMonotonic(h, 4 * (root + h), x);
    }
  }

  lemma Products(x: int, root: int, h: int)
    ensures x * (2 * h) == 2 * (x * h)
    ensures (2 * root + h) * h == 2 * (root * h) + h * h
    ensures h * (4 * (root + h)) == 4 * (root * h) + 4 * (h * h)
  {
  }

  lemma RemainderTaken(x: int, root: int, h: int)
    ensures (2 * (x - (2 * root + h))) * h == 2 * (x * h) - 4 * (root * h) - 2 * (h * h)
  {
  }

  /** One round of the loop at lines 164-176, which tries a bit of the high word. */
  method HighDigit(a0: int, a1: Word, b0: int, c: int, r: int) returns (ix0: int, ix1: Word, s0: int, q: int)
    ensures if b0 + r <= a0 then s0 == b0 + 2 * r && q == c + r && Pair(ix0, ix1) == 2 * (Pair(a0, a1) - Pair(b0 + r, 0))
            else s0 == b0 && q == c && Pair(ix0, ix1) == 2 * Pair(a0, a1)
  {
    ix0, ix1, s0, q := a0, a1, b0, c;
    var t := s0 + r;
    if t <= ix0 {
      s0 := t + r;
      ix0 := ix0 - t;
      q := q + r;
    }
    ix0, ix1 := DoublePair(ix0, ix1);
  }

  /** Lines 181 and 185-189: the trial word s1 + r grows by r again, and a carry moves into s0. */
  method GrowTrial(b0: int, b1: Word, r: Word) returns (s0: int, s1: Word)
    requires 0 < r <= SIGN_BIT
    requires if r == SIGN_BIT then b1 == 0 else b1 + 4 * r <= 0x1_0000_0000
    ensures Pair(s0, s1) == Pair(b0, b1) + 2 * r && s1 + 2 * r <= 0x1_0000_0000
  {
    hide And, Wrap;
    TrialRoot(b0, b1, r);
    s0 := b0;
    var t1 := Wrap(b1 + r);
    s1 := Wrap(t1 + r);
    if And(t1, SIGN_BIT) == SIGN_BIT && And(s1, SIGN_BIT) == 0 {
      s0 := s0 + 1;
    }
  }

  /** One round of the loop at lines 179-201, which tries a bit of the low word: comparison, carry into
      s0, borrow from ix0 and the wrap-around of s1 come out as arithmetic on the joined pairs. */
  method LowDigit(a0: int, a1: Word, b0: int, b1: Word, c1: Word, r: Word)
    returns (ix0: int, ix1: Word, s0: int, s1: Word, q1: Word)
    requires 0 < r <= SIGN_BIT && c1 + 2 * r <= 0x1_0000_0000
    requires if r == SIGN_BIT then b1 == 0 else b1 + 4 * r <= 0x1_0000_0000
    ensures s1 + 2 * r <= 0x1_0000_0000 && q1 + r <= 0x1_0000_0000
    ensures var trial := Pair(b0, b1) + r;
            if trial <= Pair(a0, a1)
            then Pair(s0, s1) == trial + r && q1 == c1 + r && Pair(ix0, ix1) == 2 * (Pair(a0, a1) - trial)
            else s0 == b0 && s1 == b1 && q1 == c1 && Pair(ix0, ix1) == 2 * Pair(a0, a1)
  {
    ix0, ix1, s0, s1, q1 := a0, a1, b0, b1, c1;
    WrapNoop(s1 + r);
    var t1 := Wrap(s1 + r);
    var t := s0;
    TrialSubtraction(ix0, ix1, t, t1);
    if t < ix0 || (t == ix0 && t1 <= ix1) {
      s0, s1 := GrowTrial(s0, s1, r);
      ix0 := ix0 - t;
      if ix1 < t1 {
        ix0 := ix0 - 1;
      }
      ix1 := Wrap(ix1 - t1);
      WrapNoop(q1 + r);
      q1 := Wrap(q1 + r);
      assert Pair(ix0, ix1) == Pair(a0, a1) - (Pair(b0, b1) + r);
    }
    ix0, ix1 := DoublePair(ix0, ix1);
  }

  /** Lines 159-176: the high 22 bits of the root. */
  method HighDigits(a0: Word, a1: Word, ghost n: nat) returns (ix0: int, ix1: Word, s0: int, q: int)
    requires 0x10_0000 <= a0 < 0x40_0000
    requires n == Pair(a0, a1) * 0x40_0000_0000_0000
    ensures s0 == 2 * q && q >= 0
    ensures RootInvariant(n, Pair(ix0, ix1), Pair(q, 0), 0x1_0000_0000)
  {
    Pow2Values();
    ix0, ix1, s0, q := a0, a1, 0, 0;
    ix0, ix1 := DoublePair(ix0, ix1);
    var r: Word := 0x20_0000;
    ghost var k: nat := 22;
    while r != 0
      invariant Pow2(k) == if r == 0 then 1 else 2 * r
      invariant s0 == 2 * q && q >= 0
      invariant RootInvariant(n, Pair(ix0, ix1), Pair(q, 0), Pow2(k) * 0x1_0000_0000)
      decreases r
    {
      RootStep(n, Pair(ix0, ix1), Pair(q, 0), r * 0x1_0000_0000);
      ix0, ix1, s0, q := HighDigit(ix0, ix1, s0, q, r);
      NextBit(r, k);
      r := Shr(r, 1);
      k := k - 1;
    }
  }

  /** Lines 178-201: the low 32 bits of the root. */
  method LowDigits(a0: int, a1: Word, b0: int, q: int, ghost n: nat) returns (ix0: int, ix1: Word, q1: Word)
    requires b0 == 2 * q && q >= 0
    requires RootInvariant(n, Pair(a0, a1), Pair(q, 0), 0x1_0000_0000)
    ensures RootInvariant(n, Pair(ix0, ix1), Pair(q, q1), 1)
  {
    hide Shr, RootInvariant;
    Pow2Values();
    var s0, s1: Word := b0, 0;
    ix0, ix1, q1 := a0, a1, 0;
    var r: Word := SIGN_BIT;
    ghost var k: nat := 32;
    while r != 0
      invariant Pow2(k) == if r == 0 then 1 else 2 * r
      invariant r <= SIGN_BIT && (if r == SIGN_BIT then s1 == 0 else s1 + 4 * r <= 0x1_0000_0000)
      invariant q1 + 2 * r <= 0x1_0000_0000
      invariant Pair(s0, s1) == 2 * Pair(q, q1)
      invariant RootInvariant(n, Pair(ix0, ix1), Pair(q, q1), Pow2(k))
      decreases r
    {
      RootStep(n, Pair(ix0, ix1), Pair(q, q1), r);
      ix0, ix1, s0, s1, q1 := LowDigit(ix0, ix1, s0, s1, q1, r);
      NextBit(r, k);
      r := Shr(r, 1);
      k := k - 1;
    }
  }

  lemma {:induction false} ShiftOne(r: Word)
    ensures Shr(r, 1) == r / 2
  {
    assert Pow2(1) == 2 * Pow2(0);
  }

  /** `r >>= 1` on a power of two. */
  lemma {:induction false} NextBit(r: Word, k: nat)
    requires r > 0 && Pow2(k) == 2 * r
    ensures k > 0 && Pow2(k - 1) == r
    ensures Shr(r, 1) < r && r == if Shr(r, 1) == 0 then 1 else 2 * Shr(r, 1)
  {
    hide Shr;
    ShiftOne(r);
    if k >= 2 {
      assert r == 2 * Pow2(k - 2);
    }
  }

  /** After the last bit the root is exact to 54 bits, and the remainder words are zero when it is exact. */
  lemma RootFound(n: nat, ix0: int, ix1: Word, root: int)
    requires RootInvariant(n, Pair(ix0, ix1), root, 1)
    requires 0x20_0000_0000_0000 * 0x20_0000_0000_0000 <= n < 0x40_0000_0000_0000 * 0x40_0000_0000_0000
    ensures root * root <= n < (root + 1) * (root + 1)
    ensures ix0 >= 0 && (ix0 == 0 && ix1 == 0 <==> n == root * root)
    ensures 0x20_0000_0000_0000 <= root < 0x40_0000_0000_0000
  {
    Squares(root + 1, 0x20_0000_0000_0000);
    Squares(0x40_0000_0000_0000, root);
  }

  /** The carry of `s1 = t1 + r`, found with two sign tests. */
  function SignCarry(t1: nat, s1: nat): int {
    if And(t1, SIGN_BIT) == SIGN_BIT && And(s1, SIGN_BIT) == 0 then 1 else 0
  }

  /** `s1 = t1 + r` wraps only for the top bit, and the two sign tests see exactly that carry. */
  lemma {:induction false} TrialRoot(s0: int, s1: Word, r: Word)
    requires 0 < r <= SIGN_BIT
    requires if r == SIGN_BIT then s1 == 0 else s1 + 4 * r <= 0x1_0000_0000
    ensures Wrap(s1 + r) == s1 + r
    ensures var s1' := Wrap(s1 + r + r);
            && Pair(s0 + SignCarry(s1 + r, s1'), s1') == Pair(s0, s1) + 2 * r
            && s1' + 2 * r <= 0x1_0000_0000
  {
    hide And, Wrap;
    WrapNoop(s1 + r);
    if r == SIGN_BIT {
      TopBitWraps();
    } else {
      WrapNoop(s1 + r + r);
      LowBitStays(s1, r);
    }
  }

  lemma {:induction false} TopBitWraps()
    ensures Wrap(SIGN_BIT + SIGN_BIT) == 0 && SignCarry(SIGN_BIT, 0) == 1
  {
    hide And;
    SignBitTest(SIGN_BIT);
    SignBitTest(0);
  }

  lemma {:induction false} LowBitStays(s1: Word, r: Word)
    requires r > 0 && s1 + 2 * r < 0x1_0000_0000
    ensures SignCarry(s1 + r, s1 + r + r) == 0
  {
    hide And;
    SignBitTest(s1 + r);
    SignBitTest(s1 + r + r);
  }

  /** The two-word comparison and the subtraction with borrow. */
  lemma TrialSubtraction(ix0: int, ix1: Word, t: int, t1: Word)
    ensures t < ix0 || (t == ix0 && t1 <= ix1) <==> Pair(t, t1) <= Pair(ix0, ix1)
    ensures Pair(ix0 - t - (if ix1 < t1 then 1 else 0), Wrap(ix1 - t1)) == Pair(ix0, ix1) - Pair(t, t1)
  {
  }

  lemma {:induction false} SignBitTest(w: Word)
    ensures And(w, SIGN_BIT) == if w >= SIGN_BIT then SIGN_BIT else 0
  {
    Pow2Values();
    AndBit(w, 31);
    ModUnique(w, SIGN_BIT, if w >= SIGN_BIT then 1 else 0, if w >= SIGN_BIT then w - SIGN_BIT else w);
  }

  // ---------------------------------------------------------------- rounding

  /** Where the rounded significand k lies with respect to the root of n, whose unit is half a place of k. */
  predicate RoundedDigits(n: nat, k: nat, mode: Rounding) {
    match mode
    case ToNearest => (2 * k - 1) * (2 * k - 1) < n < (2 * k + 1) * (2 * k + 1)
    case Upward => (2 * k - 2) * (2 * k - 2) < n <= (2 * k) * (2 * k)
    case Downward => (2 * k) * (2 * k) <= n < (2 * k + 2) * (2 * k + 2)
  }

  /** Lines 206-230: the last digit decides, with the remainder, whether the root moves up. */
  method RoundDigits(c: int, c1: Word, ix0: int, ix1: Word, mode: Rounding) returns (q: int, q1: Word)
    requires ix0 >= 0 && c >= 0
    ensures q >= 0
    ensures Pair(q, q1) / 2 ==
            if (ix0 == 0 && ix1 == 0) || mode.Downward? then Pair(c, c1) / 2
            else if mode.Upward? then Pair(c, c1) / 2 + 1
            else (Pair(c, c1) + 1) / 2
  {
    q, q1 := c, c1;
    OrZero(ix0, ix1);
    ModUnique(Pair(c, c1), 2, c * 0x8000_0000 + c1 / 2, c1 % 2);
    if Or(ix0, ix1) != 0 {
      if !mode.Downward? { // one - tiny >= one
        if q1 == 0xffff_ffff {
          q1 := 0;
          q := q + 1;
          assert Pair(q, q1) == Pair(c, c1) + 1;
        } else if mode.Upward? { // one + tiny > one
          q, q1 := AddTwo(q, q1);
        } else {
          AndOne(q1);
          WrapNoop(q1 + q1 % 2);
          q1 := Wrap(q1 + And(q1, 1));
          assert Pair(q, q1) == Pair(c, c1) + c1 % 2;
        }
      }
    }
  }

  /** Lines 217-224: two units, with the carry. */
  method AddTwo(c: int, c1: Word) returns (q: int, q1: Word)
    requires c1 != 0xffff_ffff
    ensures Pair(q, q1) == Pair(c, c1) + 2 && q >= c
  {
    q := c;
    if c1 == 0xffff_fffe {
      q := q + 1;
    } else {
      WrapNoop(c1 + 2);
    }
    q1 := Wrap(c1 + 2);
  }

  lemma {:induction false} OrZero(a: nat, b: nat)
    ensures Or(a, b) == 0 <==> a == 0 && b == 0
  {
    if a != 0 && b != 0 {
      OrZero(a / 2, b / 2);
    }
  }

  /** A radicand that is a multiple of 2^54 has no exact root with an odd last digit, so the tie between
      two neighbouring doubles never occurs. */
  lemma NoTie(n: nat, root: nat)
    requires n % 2 == 0 && n == root * root
    ensures root % 2 == 0
  {
    var h, b := root / 2, root % 2;
    assert root * root == 2 * (2 * h * h + 2 * h * b) + b * b;
  }

  lemma RoundingDecides(n: nat, root: nat, k: nat, mode: Rounding)
    requires n % 2 == 0 && root > 0
    requires root * root <= n < (root + 1) * (root + 1)
    requires k == if n == root * root || mode.Downward? then root / 2
                  else if mode.Upward? then root / 2 + 1 else (root + 1) / 2
    ensures RoundedDigits(n, k, mode)
  {
    if n == root * root {
      NoTie(n, root);
    }
    Squares(2 * k, root);
    Squares(2 * k + 1, root);
    Squares(2 * k + 1, root + 1);
    Squares(2 * k - 1, root);
    Squares(2 * k - 2, root);
    Squares(2 * k + 2, root + 1);
    Squares(2 * k, root + 1);
  }

  lemma Squares(a: int, b: int)
    requires b >= 0
    ensures 0 <= a <= b ==> a * a <= b * b
    ensures 0 <= a < b ==> a * a < b * b
    ensures b <= a ==> b * b <= a * a
    ensures b < a ==> b * b < a * a
    ensures a == -1 ==> a * a == 1
    ensures a == -2 ==> a * a == 4
  {
    if 0 <= a <= b {
      MulMonotonic(a, a, b);
      MulMonotonic(b, a, b);
    } else if b <= a {
      MulMonotonic(b, b, a);
      MulMonotonic(a, b, a);
    }
  }

  // ---------------------------------------------------------------- the result among all doubles

  /** No double lies strictly between k * 2^e and its neighbours at that scale, except just below the
      smallest significand. */
  lemma {:induction false} Neighbours(d: Double, k: nat, e: nat)
    requires Finite(d)
    requires 0x10_0000_0000_0000 <= k <= 0x20_0000_0000_0000
    ensures Magnitude(d) > Up(k, e) ==> Magnitude(d) >= Up(k + 1, e)
    ensures Magnitude(d) < Up(k, e) && k > 0x10_0000_0000_0000 ==> Magnitude(d) <= Up(k - 1, e)
  {
    var c, s := Significand(d), Scale(d);
    if s >= e {
      UpTwice(c, s - e, e);
      var u := Up(c, s - e);
      UpOrder(k, u, e);
      UpOrder(k + 1, u, e);
      UpOrder(u, k, e);
      UpOrder(u, k - 1, e);
    } else {
      LowerScale(c, s, e);
      UpOrder(0x10_0000_0000_0000, k, e);
      UpOrder(0x10_0000_0000_0000, k - 1, e);
    }
  }

  /** Comparing a scaled square with a scaled radicand. */
  lemma {:induction false} ScaledSquare(a: int, n: int, e: nat)
    ensures Up(a, e) * Up(a, e) == Up(a * a, 2 * e)
    ensures a * a < n <==> Up(a, e) * Up(a, e) < Up(n, 2 * e)
    ensures n < a * a <==> Up(n, 2 * e) < Up(a, e) * Up(a, e)
  {
    UpSquare(a, e);
    UpOrder(a * a, n, 2 * e);
    UpOrder(n, a * a, 2 * e);
  }

  /** The rounded digits k, placed at scale e, beat every other double for the root of t. */
  lemma {:induction false} RoundedBeats(n: nat, k: nat, e: nat, t: nat, d: Double, mode: Rounding)
    requires RoundedDigits(n, k, mode) && Finite(d)
    requires 0x10_0000_0000_0000 <= k <= 0x20_0000_0000_0000
    requires 0x20_0000_0000_0000 * 0x20_0000_0000_0000 <= n
    requires 4 * t == Up(n, 2 * e)
    requires Magnitude(d) != Up(k, e)
    ensures Up(k, e) >= 0 && Beats(Up(k, e), Magnitude(d), t, mode)
  {
    UpGrows(k, 0, e);
    Neighbours(d, k, e);
    var r, m := Up(k, e), Magnitude(d);
    if m > r {
      AboveBeats(n, k, e, t, m, mode);
    } else if k > 0x10_0000_0000_0000 {
      BelowBeats(n, k, e, t, m, mode);
    } else {
      // k is a power of two: its lower neighbour is closer, but then the root is not below k
      ScaledSquare(2 * k, n, e);
      UpSum(k, 0, e);
      Squares(m + r, 2 * r);
      Squares(m, r);
      DoubleSquare(r);
    }
  }

  lemma {:induction false} AboveBeats(n: nat, k: nat, e: nat, t: nat, m: nat, mode: Rounding)
    requires RoundedDigits(n, k, mode) && k > 0
    requires 4 * t == Up(n, 2 * e) && m >= Up(k + 1, e)
    ensures 0 <= Up(k, e) < m && Beats(Up(k, e), m, t, mode)
  {
    StepsOf(k, e);
    match mode
    case ToNearest =>
      ScaledSquare(2 * k + 1, n, e);
      Squares(Up(2 * k + 1, e), m + Up(k, e));
    case Upward =>
    case Downward =>
      ScaledSquare(2 * k + 2, n, e);
      DoubleSquare(Up(k + 1, e));
      Squares(Up(k + 1, e), m);
  }

  lemma {:induction false} BelowBeats(n: nat, k: nat, e: nat, t: nat, m: nat, mode: Rounding)
    requires RoundedDigits(n, k, mode) && k > 0
    requires 4 * t == Up(n, 2 * e) && m <= Up(k - 1, e)
    ensures m < Up(k, e) && Beats(Up(k, e), m, t, mode)
  {
    StepsOf(k, e);
    match mode
    case ToNearest =>
      ScaledSquare(2 * k - 1, n, e);
      Squares(m + Up(k, e), Up(2 * k - 1, e));
    case Upward =>
      ScaledSquare(2 * k - 2, n, e);
      DoubleSquare(Up(k - 1, e));
      Squares(m, Up(k - 1, e));
    case Downward =>
  }

  lemma {:induction false} StepsOf(k: nat, e: nat)
    requires k > 0
    ensures 0 <= Up(k - 1, e) < Up(k, e) < Up(k + 1, e)
    ensures Up(2 * k + 1, e) == Up(k, e) + Up(k + 1, e) && Up(2 * k - 1, e) == Up(k, e) + Up(k - 1, e)
    ensures Up(2 * k + 2, e) == 2 * Up(k + 1, e) && Up(2 * k - 2, e) == 2 * Up(k - 1, e)
  {
    UpGrows(k - 1, 0, e);
    UpOrder(k - 1, k, e);
    UpOrder(k, k + 1, e);
    UpSum(k, k + 1, e);
    UpSum(k, k - 1, e);
    UpSum(k + 1, 0, e);
    UpSum(k - 1, 0, e);
    assert 2 * k + 1 == k + (k + 1) && 2 * k - 1 == k + (k - 1);
    assert 2 * k + 2 == 2 * (k + 1) && 2 * k - 2 == 2 * (k - 1);
  }

  /** Lines 232-236: the low word takes over the last bit of q. */
  method PackLow(q: nat, q1: Word) returns (ix1: Word)
    ensures ix1 == q1 / 2 + (if q % 2 == 1 then SIGN_BIT else 0)
  {
    Pow2Values();
    assert Pow2(1) == 2;
    ix1 := Shr(q1, 1);
    AndOne(q);
    if And(q, 1) == 1 { // (q & 1) == 1
      OrCommutes(ix1, SIGN_BIT);
      OrDisjoint(SIGN_BIT, ix1, 31);
      ix1 := Or(ix1, SIGN_BIT);
    }
  }

  /** Lines 231-239: the digits and the halved exponent packed into a double. */
  method Pack(q: int, q1: Word, m: int, ghost k: nat) returns (r: Double)
    requires q >= 0 && k == Pair(q, q1) / 2
    requires 0x10_0000_0000_0000 <= k <= 0x20_0000_0000_0000
    requires -537 <= m <= 511
    ensures Finite(r) && !Negative(r)
    ensures Magnitude(r) == Up(k, 1022 + m)
  {
    var ix0 := q / 2 + 0x3fe0_0000;
    var ix1 := PackLow(q, q1);
    ix0 := ix0 + m * 0x10_0000;
    assert Pair(ix0, ix1) == k + (0x3fe + m) * 0x10_0000_0000_0000;
    r := Double(ix0, ix1);
    assert MagnitudeBits(r) == Pair(ix0, ix1);
    if k == 0x20_0000_0000_0000 {
      assert ExponentField(r) == 0x400 + m && Fraction(r) == 0;
      UpTwice(0x10_0000_0000_0000, 1, 1022 + m);
    } else {
      assert ExponentField(r) == 0x3ff + m && Fraction(r) == k - 0x10_0000_0000_0000;
    }
  }

  /** The radicand n of the digit loops is the argument x, up to an even power of two: with v = 1024 the
      left side is in the unit of Unit, and e is the scale of the result. */
  lemma {:induction false} RadicandScaled(x: nat, c: nat, s: nat, n: nat, o: nat, e: nat, v: nat)
    requires o + 2 * e == s + v
    requires Up(x, 52) == Up(c, s) && n == Up(c, o)
    ensures Up(x, 52 + v) == Up(n, 2 * e)
  {
    UpTwice(c, o, 2 * e);
    UpTwice(c, s, v);
    UpTwice(x, 52, v);
  }

  lemma {:induction false} UnitQuadrupled(x: nat)
    ensures Up(x, 1076) == 4 * Unit(x)
  {
    UpTwice(x, 1074, 2);
    assert Up(Unit(x), 2) == 4 * Unit(x);
  }

  lemma {:induction false} RootIsCorrect(x: Double, r: Double, n: nat, k: nat, e: nat, mode: Rounding)
    requires RoundedDigits(n, k, mode) && Finite(r) && !Negative(r)
    requires 0x10_0000_0000_0000 <= k <= 0x20_0000_0000_0000
    requires 0x20_0000_0000_0000 * 0x20_0000_0000_0000 <= n
    requires 4 * Unit(Magnitude(x)) == Up(n, 2 * e)
    requires Magnitude(r) == Up(k, e)
    ensures CorrectlyRoundedRoot(x, r, mode)
  {
    var t := Unit(Magnitude(x));
    ScaledSquare(2 * k, n, e);
    UpSum(k, 0, e);
    DoubleSquare(Up(k, e));
    forall d: Double | Finite(d) && !Negative(d) && Magnitude(d) != Magnitude(r)
      ensures Beats(Magnitude(r), Magnitude(d), t, mode)
    {
      RoundedBeats(n, k, e, t, d, mode);
    }
  }

  /** `sqrt`. */
  method Sqrt(x: Double, mode: Rounding, keepsOn32: bool) returns (r: Double)
    ensures IsNaN(x) ==> IsNaN(r)
    ensures IsInfinite(x) ==> if Negative(x) then IsNaN(r) else r == x
    ensures IsZero(x) ==> r == x
    ensures Finite(x) && Negative(x) && !IsZero(x) ==> IsNaN(r)
    ensures Finite(x) && !Negative(x) && !IsZero(x) ==> CorrectlyRoundedRoot(x, r, mode)
  {
    if ExponentField(x) == 0x7ff {
      return SquarePlusSelf(x);
    }
    if Signed(x.hi) <= 0 {
      if AbsHi(x) == 0 && x.lo == 0 {
        return x;
      } else if Signed(x.hi) < 0 {
        return NAN;
      }
    }
    Pow2Values();
    var ix0, ix1, m := Normalize(x, keepsOn32);
    ghost var mb, c := m, Pair(0x10_0000 + ix0 % 0x10_0000, ix1);
    m := m - 1023;
    AndMask(ix0, 20);
    OrDisjoint(0x10_0000, And(ix0, 0xf_ffff), 20);
    OrCommutes(And(ix0, 0xf_ffff), 0x10_0000);
    ix0 := Or(And(ix0, 0xf_ffff), 0x10_0000);
    ghost var odd := m % 2;
    if m % 2 == 1 {
      ix0, ix1 := DoublePair(ix0, ix1);
    }
    m := m / 2;
    r := RootOfPair(ix0, ix1, m, mode, x, c, mb, odd);
  }

  /** Lines 158-240. */
  method RootOfPair(a0: int, a1: Word, m: int, mode: Rounding, ghost x: Double, ghost c: nat, ghost mb: int, ghost odd: nat)
    returns (r: Double)
    requires 0x10_0000 <= a0 < 0x40_0000 && -51 <= mb < 0x7ff && odd < 2 && mb - 1023 == 2 * m + odd
    requires Pair(a0, a1) == c * (1 + odd)
    requires Up(Magnitude(x), 52) == Up(c, mb + 51)
    ensures CorrectlyRoundedRoot(x, r, mode)
  {
    ghost var n := Pair(a0, a1) * 0x40_0000_0000_0000;
    RadicandIs(n, c, odd, Pair(a0, a1));
    var ix0, ix1, s0, q := HighDigits(a0, a1, n);
    var q1;
    ix0, ix1, q1 := LowDigits(ix0, ix1, s0, q, n);
    RootFound(n, ix0, ix1, Pair(q, q1));
    RadicandScaled(Magnitude(x), c, mb + 51, n, odd + 54, 1022 + m, 1024);
    UnitQuadrupled(Magnitude(x));
    r := RoundAndPack(q, q1, ix0, ix1, m, mode, x, n, Pair(q, q1));
  }

  lemma {:induction false} RadicandIs(n: nat, c: nat, odd: nat, pair: nat)
    requires odd < 2 && pair == c * (1 + odd) && n == pair * 0x40_0000_0000_0000
    requires 0x10_0000_0000_0000 <= pair < 0x40_0000_0000_0000
    ensures n == Up(c, odd + 54) && n % 2 == 0
    ensures 0x20_0000_0000_0000 * 0x20_0000_0000_0000 <= n < 0x40_0000_0000_0000 * 0x40_0000_0000_0000
  {
    Pow2Values();
    UpTimes(pair, 54);
    UpTwice(c, 1, 54);
    assert pair == if odd == 0 then c else Up(c, 1);
    assert n == 2 * (pair * 0x20_0000_0000_0000);
  }

  /** Lines 205-240. */
  method RoundAndPack(c: int, c1: Word, ix0: int, ix1: Word, m: int, mode: Rounding,
                      ghost x: Double, ghost n: nat, ghost root: nat)
    returns (r: Double)
    requires c >= 0 && ix0 >= 0 && root == Pair(c, c1) && -537 <= m <= 511
    requires root * root <= n < (root + 1) * (root + 1) && n % 2 == 0
    requires ix0 == 0 && ix1 == 0 <==> n == root * root
    requires 0x20_0000_0000_0000 <= root < 0x40_0000_0000_0000
    requires 0x20_0000_0000_0000 * 0x20_0000_0000_0000 <= n
    requires 4 * Unit(Magnitude(x)) == Up(n, 2 * (1022 + m))
    ensures CorrectlyRoundedRoot(x, r, mode)
  {
    var q, q1 := RoundDigits(c, c1, ix0, ix1, mode);
    ghost var k := Pair(q, q1) / 2;
    RoundingDecides(n, root, k, mode);
    r := Pack(q, q1, m, k);
    RootIsCorrect(x, r, n, k, 1022 + m, mode);
  }

  /** `x * x + x` for an infinity or a NaN. */
  function SquarePlusSelf(x: Double): Double {
    if IsInfinite(x) && Negative(x) then NAN else x
  }
}
