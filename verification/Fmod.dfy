/** The exact remainder of jerry-math/fmod.c (section 7.12.10.1 of ISO C11): shift and subtract on two
    words. Scaled to integers, the magnitude of the result is the remainder of the magnitudes. */
module Fmod {
  import opened Words
  import opened Doubles

  /** The zero that line 69 and its siblings return. */
  function SignedZero(negative: bool): (z: Double)
    ensures Finite(z) && IsZero(z) && Magnitude(z) == 0 && Negative(z) == negative
  {
    var z := Double(if negative then SIGN_BIT else 0, 0);
    assert AbsHi(z) == 0;
    z
  }

  // ---------------------------------------------------------------- lines 73-155: significand and exponent

  /** What the alignment of one operand establishes: a 53-bit significand at exponent e. */
  ghost predicate Aligned(v: nat, sig: int, e: int) {
    && -1074 <= e <= 1023
    && 0x10_0000_0000_0000 <= sig < 0x20_0000_0000_0000
    && Up(v, 52) == Up(sig, e + 1074)
  }

  /** Lines 78-81: the leading bit is in the low word. */
  method LowExponent(l: Word) returns (e: int)
    requires l > 0
    ensures -1074 <= e <= -1043 && 0x10_0000_0000_0000 <= Up(l, -1022 - e) < 0x20_0000_0000_0000
  {
    ghost var j: nat := 0;
    var i: Word := l;
    e := -1043;
    while 0 < i < SIGN_BIT
      invariant i == Up(l, j) && e == -1043 - j && i > 0
      decreases SIGN_BIT - i
    {
      i := Wrap(2 * i);
      e := e - 1;
      j := j + 1;
    }
    LowWordExponent(l, j);
  }

  /** Lines 85-88: it is in the high word. */
  method HighExponent(h: nat, ghost l: Word) returns (e: int)
    requires 0 < h < 0x10_0000
    ensures -1042 <= e < -1022 && 0x10_0000_0000_0000 <= Up(Pair(h, l), -1022 - e) < 0x20_0000_0000_0000
  {
    Pow2Values();
    WrapNoop(h * 0x800);
    ghost var j: nat := 0;
    var i: Word;
    e, i := -1022, Shl(h, 11);
    while 0 < i < SIGN_BIT
      invariant i == 0x800 * Up(h, j) && e == -1022 - j && i > 0
      decreases SIGN_BIT - i
    {
      i := Wrap(2 * i);
      e := e - 1;
      j := j + 1;
    }
    HighWordExponent(h, l, j);
  }

  /** Lines 73-94 (and 96-117): the exponent of the leading bit. */
  method Ilogb(x: Double) returns (e: int)
    requires Finite(x) && !IsZero(x)
    ensures -1074 <= e <= 1023
    ensures if ExponentField(x) != 0 then e == ExponentField(x) - 1023
            else e < -1022 && 0x10_0000_0000_0000 <= Up(Magnitude(x), -1022 - e) < 0x20_0000_0000_0000
  {
    var h, l := AbsHi(x), x.lo;
    if h < 0x10_0000 {
      assert Magnitude(x) == Pair(h, l);
      if h == 0 {
        e := LowExponent(l);
      } else {
        e := HighExponent(h, l);
      }
    } else {
      e := h / 0x10_0000 - 1023;
    }
  }

  lemma {:induction false} LowWordExponent(l: Word, j: nat)
    requires SIGN_BIT <= Up(l, j) < 0x1_0000_0000
    ensures j < 32
    ensures 0x10_0000_0000_0000 <= Up(l, 21 + j) < 0x20_0000_0000_0000
  {
    Pow2Values();
    if l == 0 {
      UpTimes(0, j);
    }
    UpBound(l, j, 32);
    UpTwice(l, j, 21);
    UpTimes(Up(l, j), 21);
  }

  lemma {:induction false} HighWordExponent(h: nat, l: Word, j: nat)
    requires 0 < h < 0x10_0000 && 0x10_0000 <= Up(h, j) < 0x20_0000
    ensures 0 < j <= 20
    ensures 0x10_0000_0000_0000 <= Up(Pair(h, l), j) < 0x20_0000_0000_0000
  {
    Pow2Values();
    UpBound(h, j, 21);
    NextMultiple(h, j, 21 - j);
    PairUp(h, l, j);
    UpGrows(l, 0, j);
    UpOrder(l, 0x1_0000_0000, j);
    UpTimes(0x1_0000_0000, j);
  }

  /** Lines 119-137 (and 138-155): the significand, shifted up when the operand is subnormal. */
  method SetUp(x: Double, e: int) returns (h: int, l: Word)
    requires Finite(x) && !IsZero(x) && -1074 <= e <= 1023
    requires if ExponentField(x) != 0 then e == ExponentField(x) - 1023
             else e < -1022 && 0x10_0000_0000_0000 <= Up(Magnitude(x), -1022 - e) < 0x20_0000_0000_0000
    ensures h >= 0 && Aligned(Magnitude(x), Pair(h, l), e)
  {
    h, l := AbsHi(x), x.lo;
    if e >= -1022 {
      AndMask(h, 20);
      Pow2Values();
      OrDisjoint(0x10_0000, And(0xf_ffff, h), 20);
      AndCommutes(h, 0xf_ffff);
      h := Or(0x10_0000, And(0xf_ffff, h));
      UpTwice(Significand(x), Scale(x), 52);
    } else {
      var n := -1022 - e;
      UpTwice(Magnitude(x), n, e + 1074);
      if n <= 31 {
        ShiftedPair(h, l, n);
        h := Or(Shl(h, n), Shr(l, 32 - n));
        l := Shl(l, n);
      } else {
        ShiftedLow(h, l, n);
        h := Shl(l, n - 32);
        l := 0;
      }
    }
  }

  /** A pair that has room for it moves up by n bits, 1 <= n <= 31. */
  lemma {:induction false} ShiftedPair(h: Word, l: Word, n: nat)
    requires 1 <= n <= 31 && Up(Pair(h, l), n) < 0x20_0000_0000_0000
    ensures 0 <= Or(Shl(h, n), Shr(l, 32 - n)) < 0x20_0000
    ensures Pair(Or(Shl(h, n), Shr(l, 32 - n)), Shl(l, n)) == Up(Pair(h, l), n)
  {
    PairUp(h, l, n);
    UpGrows(l, 0, n);
    UpGrows(h, 0, n);
    UpTimes(h, n);
    WrapNoop(Up(h, n));
    ShiftSplit(l, n);
    UpMultiple(h, n);
    OrDisjoint(Shl(h, n), Shr(l, 32 - n), n);
  }

  /** A pair that has room for it moves up by n bits, 32 <= n <= 52: its high word must be empty. */
  lemma {:induction false} ShiftedLow(h: Word, l: Word, n: nat)
    requires 32 <= n <= 52 && Up(Pair(h, l), n) < 0x20_0000_0000_0000
    ensures h == 0 && Pair(Shl(l, n - 32), 0) == Up(Pair(h, l), n)
  {
    var p := Pair(h, l);
    var u := Up(p, n - 32);
    TopWord(p, n);
    assert p <= u < 0x20_0000;
    assert h == 0 && p == l;
    UpTimes(l, n - 32);
    WrapNoop(u);
  }

  lemma {:induction false} TopWord(p: nat, n: nat)
    requires 32 <= n
    ensures p <= Up(p, n - 32) && Up(p, n) == Up(p, n - 32) * 0x1_0000_0000
  {
    UpTwice(p, n - 32, 32);
    Pow2Values();
    UpTimes(Up(p, n - 32), 32);
    UpGrows(p, 0, n - 32);
  }

  lemma {:induction false} AndCommutes(a: nat, b: nat)
    ensures And(a, b) == And(b, a)
  {
    if a != 0 && b != 0 {
      AndCommutes(a / 2, b / 2);
    }
  }

  // ---------------------------------------------------------------- lines 157-192: shift and subtract

  lemma ModDouble(a: int, b: int, y: int)
    requires y > 0 && a % y == b % y
    ensures (2 * a) % y == (2 * b) % y
  {
    var qa, qb, r := a / y, b / y, a % y;
    assert a == y * qa + r && b == y * qb + r;
    var q, s := (2 * r) / y, (2 * r) % y;
    assert 2 * r == y * q + s;
    Collect(y, qa, q, 2 * a, 2 * r, s);
    Collect(y, qb, q, 2 * b, 2 * r, s);
  }

  lemma Collect(y: int, q: int, p: int, total: int, rest: int, s: int)
    requires y > 0 && total == 2 * (y * q) + rest && rest == y * p + s && 0 <= s < y
    ensures total % y == s
  {
    assert y * (2 * q + p) == 2 * (y * q) + y * p;
    ModUnique(total, y, 2 * q + p, s);
  }

  lemma ModMinus(x: int, y: int)
    requires y > 0
    ensures (x - y) % y == x % y
  {
    var q, r := x / y, x % y;
    assert y * (q - 1) == y * q - y;
    ModUnique(x - y, y, q - 1, r);
  }

  /** What the loop keeps after k rounds: the pair is congruent to the shifted significand of x. */
  ghost predicate Congruent(pair: int, sig: int, k: nat, y: int) {
    y > 0 && 0 <= pair < 2 * y && pair % y == Up(sig, k) % y
  }

  /** `hz = hx - hy; lz = lx - ly; if (lx < ly) hz -= 1;` */
  method Subtract(hx: int, lx: Word, hy: int, ly: Word) returns (hz: int, lz: Word)
    ensures Pair(hz, lz) == Pair(hx, lx) - Pair(hy, ly)
    ensures hz < 0 <==> Pair(hx, lx) < Pair(hy, ly)
  {
    hz := hx - hy;
    lz := Wrap(lx - ly);
    if lx < ly {
      hz := hz - 1;
    }
  }

  /** `hx = hx + hx + (lx >> 31); lx = lx + lx;` */
  method DoublePair(h0: int, l0: Word) returns (h: int, l: Word)
    ensures Pair(h, l) == 2 * Pair(h0, l0)
  {
    Pow2Values();
    h := h0 + h0 + Shr(l0, 31);
    l := Wrap(l0 + l0);
    if l0 < SIGN_BIT {
      WrapNoop(l0 + l0);
    } else {
      ModUnique(l0 + l0, 0x1_0000_0000, 1, l0 + l0 - 0x1_0000_0000);
    }
  }

  /** Lines 157-192. The result is the remainder of the shifted significand; zero reports the early
      return as well as a zero remainder. */
  method Reduce(hx: int, lx: Word, hy: int, ly: Word, n: nat) returns (h: int, l: Word)
    requires 0x10_0000_0000_0000 <= Pair(hx, lx) < 0x20_0000_0000_0000
    requires 0x10_0000_0000_0000 <= Pair(hy, ly) < 0x20_0000_0000_0000
    ensures h >= 0 && Pair(h, l) == Up(Pair(hx, lx), n) % Pair(hy, ly)
  {
    h, l := hx, lx;
    ghost var sig, y := Pair(hx, lx), Pair(hy, ly);
    var left := n;
    while left != 0
      invariant 0 <= left <= n && Congruent(Pair(h, l), sig, n - left, y)
    {
      ghost var k := n - left;
      left := left - 1;
      var hz, lz := Subtract(h, l, hy, ly);
      RoundKeeps(Pair(h, l), sig, k, y);
      if hz < 0 {
        h, l := DoublePair(h, l);
      } else {
        OrZeroPair(hz, lz);
        if Or(hz, lz) == 0 {
          ZeroStays(sig, k, n, y);
          return 0, 0;
        }
        h, l := DoublePair(hz, lz);
      }
    }
    var hz, lz := Subtract(h, l, hy, ly);
    LastRound(Pair(h, l), sig, n, y);
    if hz >= 0 {
      h, l := hz, lz;
    }
  }

  /** One round keeps the congruence; a zero difference means the remainder is zero from here on. */
  lemma {:induction false} RoundKeeps(pair: int, sig: int, k: nat, y: int)
    requires Congruent(pair, sig, k, y)
    ensures pair < y ==> Congruent(2 * pair, sig, k + 1, y)
    ensures pair >= y ==> Congruent(2 * (pair - y), sig, k + 1, y)
    ensures pair == y ==> Up(sig, k) % y == 0
  {
    ModDouble(pair, Up(sig, k), y);
    ModMinus(pair, y);
    ModDouble(pair - y, Up(sig, k), y);
    ModUnique(y, y, 1, 0);
  }

  /** The subtraction after the loop leaves the remainder itself. */
  lemma {:induction false} LastRound(pair: int, sig: int, n: nat, y: int)
    requires Congruent(pair, sig, n, y)
    ensures (if pair >= y then pair - y else pair) == Up(sig, n) % y
  {
    ModMinus(pair, y);
    if pair >= y {
      ModUnique(pair - y, y, 0, pair - y);
    } else {
      ModUnique(pair, y, 0, pair);
    }
  }

  lemma {:induction false} OrZeroPair(h: nat, l: Word)
    ensures Or(h, l) == 0 <==> Pair(h, l) == 0
  {
    if h != 0 && l != 0 {
      OrPositive(h, l);
    }
  }

  lemma {:induction false} OrPositive(a: nat, b: nat)
    requires a > 0
    ensures Or(a, b) > 0
  {
    if b != 0 && a / 2 > 0 {
      OrPositive(a / 2, b / 2);
    }
  }

  /** Once the shifted significand is a multiple of y, so are all further shifts. */
  lemma {:induction false} ZeroStays(sig: int, k: nat, n: nat, y: int)
    requires k <= n && y > 0 && Up(sig, k) % y == 0
    ensures Up(sig, n) % y == 0
    decreases n - k
  {
    if k < n {
      ModUnique(0, y, 0, 0);
      ModDouble(Up(sig, k), 0, y);
      ZeroStays(sig, k + 1, n, y);
    }
  }

  // ---------------------------------------------------------------- lines 194-234: back to a double

  lemma {:induction false} UpMod(a: nat, b: nat, n: nat)
    requires b > 0
    ensures Up(b, n) > 0 && Up(a, n) % Up(b, n) == Up(a % b, n)
  {
    if n != 0 {
      UpMod(a, b, n - 1);
      DoubleMod(Up(a, n - 1), Up(b, n - 1));
    }
  }

  lemma DoubleMod(a: int, b: int)
    requires b > 0
    ensures (2 * a) % (2 * b) == 2 * (a % b)
  {
    var q, r := a / b, a % b;
    assert (2 * b) * q == 2 * (b * q);
    ModUnique(2 * a, 2 * b, q, 2 * r);
  }

  /** The remainder of the operands is the remainder of their significands, at the exponent of y. */
  lemma {:induction false} RemainderScaled(x: nat, y: nat, sx: nat, sy: nat, ex: int, ey: int)
    requires Aligned(x, sx, ex) && Aligned(y, sy, ey) && ex >= ey && y > 0
    ensures Up(x % y, 52) == Up(Up(sx, ex - ey) % sy, ey + 1074)
  {
    UpMod(x, y, 52);
    UpTwice(sx, ex - ey, ey + 1074);
    UpGrows(sx, 0, ex - ey);
    UpMod(Up(sx, ex - ey), sy, ey + 1074);
  }

  /** The larger operand has the larger exponent. */
  lemma ExponentsOrdered(x: nat, y: nat, sx: nat, sy: nat, ex: int, ey: int)
    requires Aligned(x, sx, ex) && Aligned(y, sy, ey) && x >= y
    ensures ex >= ey
  {
    if ex < ey {
      LowerScale(sx, ex + 1074, ey + 1074);
      UpOrder(0x10_0000_0000_0000, sy, ey + 1074);
      UpOrder(y, x, 52);
    }
  }

  lemma {:induction false} UpCancel(a: int, m: nat, b: int, n: nat, j: nat)
    requires Up(a, m + j) == Up(b, n + j)
    ensures Up(a, m) == Up(b, n)
  {
    UpTwice(a, m, j);
    UpTwice(b, n, j);
    UpOrder(Up(a, m), Up(b, n), j);
    UpOrder(Up(b, n), Up(a, m), j);
  }

  /** Lines 199-234: normalise the remainder and pack it; `v` is the magnitude it stands for. */
  method Pack(h0: int, l0: Word, e0: int, negative: bool, ghost v: nat) returns (r: Double)
    requires -1074 <= e0 <= 1023 && h0 >= 0 && 0 < Pair(h0, l0) < 0x20_0000_0000_0000
    requires Up(v, 52) == Up(Pair(h0, l0), e0 + 1074)
    ensures Finite(r) && Negative(r) == negative && Magnitude(r) == v
  {
    var h, l, e := h0, l0, e0;
    ghost var j: nat := 0;
    while h < 0x10_0000
      invariant h >= 0 && 0 < Pair(h, l) < 0x20_0000_0000_0000
      invariant e == e0 - j && Pair(h, l) == Up(Pair(h0, l0), j)
      decreases 0x20_0000_0000_0000 - Pair(h, l)
    {
      h, l := DoublePair(h, l);
      e := e - 1;
      j := j + 1;
    }
    UpTwice(v, 52, j);
    UpTwice(Pair(h0, l0), e0 + 1074, j);
    UpTwice(Pair(h0, l0), j, e0 + 1074);
    if e >= -1022 {
      UpCancel(v, 0, Pair(h, l), e + 1022, 52 + j);
      r := PackNormal(h, l, e, negative, v);
    } else {
      UpCancel(v, -1022 - e, Pair(h, l), 0, e0 + 1074);
      r := PackSubnormal(h, l, e, negative, v);
    }
  }

  /** Lines 207-212. */
  method PackNormal(h0: int, l: Word, e: int, negative: bool, ghost v: nat) returns (r: Double)
    requires -1022 <= e <= 1023 && 0x10_0000 <= h0 < 0x20_0000
    requires v == Up(Pair(h0, l), e + 1022)
    ensures Finite(r) && Negative(r) == negative && Magnitude(r) == v
  {
    Pow2Values();
    var h := h0 - 0x10_0000;
    ModOfMultiple(e + 1023, 0x10_0000);
    OrDisjoint((e + 1023) * 0x10_0000, h, 20);
    OrCommutes(h, (e + 1023) * 0x10_0000);
    h := Or(h, (e + 1023) * 0x10_0000);
    r := WithSign(h, l, negative);
    assert ExponentField(r) == e + 1023 && Fraction(r) == Pair(h0, l) - 0x10_0000_0000_0000;
  }

  /** `hx | sx` */
  method WithSign(h: int, l: Word, negative: bool) returns (r: Double)
    requires 0 <= h < SIGN_BIT
    ensures AbsHi(r) == h && r.lo == l && Negative(r) == negative
  {
    Pow2Values();
    var sx: Word := if negative then SIGN_BIT else 0;
    OrDisjoint(sx, h, 31);
    OrCommutes(h, sx);
    r := Double(Or(h, sx), l);
  }

  /** Lines 213-233: a subnormal result. Only zero bits are shifted out. */
  method PackSubnormal(h0: int, l0: Word, e: int, negative: bool, ghost v: nat) returns (r: Double)
    requires e < -1022 && 0x10_0000 <= h0 < 0x20_0000
    requires Pair(h0, l0) == Up(v, -1022 - e)
    ensures Finite(r) && Negative(r) == negative && Magnitude(r) == v
  {
    var h, l, n := h0, l0, -1022 - e;
    ShiftedOut(h0, l0, n, v);
    if n <= 20 {
      l := Or(Shr(l, n), Shl(h, 32 - n));
      h := Shr(h, n);
    } else if n <= 31 {
      l := Or(Shl(h, 32 - n), Shr(l, n));
      h := 0;
    } else {
      l := Shr(h, n - 32);
      h := 0;
    }
    r := WithSign(h, l, negative);
    assert ExponentField(r) == 0 && Fraction(r) == v;
  }

  /** A right shift by n of a pair that is a multiple of 2^n. */
  lemma {:induction false} ShiftedOut(h: Word, l: Word, n: nat, v: nat)
    requires 0 < n && 0x10_0000 <= h < 0x20_0000 && Pair(h, l) == Up(v, n)
    ensures n <= 52 && v < 0x10_0000_0000_0000
    ensures n <= 31 ==> 0 <= Or(Shr(l, n), Shl(h, 32 - n)) == Or(Shl(h, 32 - n), Shr(l, n)) < 0x1_0000_0000
    ensures n <= 31 ==> Pair(Shr(h, n), Or(Shl(h, 32 - n), Shr(l, n))) == v
    ensures 21 <= n <= 31 ==> Shr(h, n) == 0
    ensures n >= 32 ==> Shr(h, n - 32) == v
  {
    Pow2Values();
    if v == 0 {
      UpTimes(0, n);
    }
    UpBound(v, n, 53);
    assert Up(v, n) == 2 * Up(v, n - 1);
    UpGrows(v, 0, n - 1);
    UpTimes(v, n);
    if n <= 31 {
      Pow2Sum(32, n, 32 - n);
      ShiftedOutCore(h, l, Pow2(n), Pow2(32 - n), v);
      ModOfMultiple(h % Pow2(n), Pow2(32 - n));
      DivBelow(l, Pow2(n), Pow2(32 - n));
      OrDisjoint(Shl(h, 32 - n), Shr(l, n), 32 - n);
      OrCommutes(Shr(l, n), Shl(h, 32 - n));
      OrBound32(Shl(h, 32 - n), Shr(l, n));
      if n >= 21 {
        Pow2Monotonic(21, n);
        ModUnique(h, Pow2(n), 0, h);
      }
    } else {
      TopWord(v, n);
      assert h == Up(v, n - 32);
      UpTimes(v, n - 32);
      MulCommutes(v, Pow2(n - 32));
      ModUnique(h, Pow2(n - 32), v, 0);
    }
  }

  lemma DivBelow(l: Word, p: nat, c: nat)
    requires p > 0 && c > 0 && p * c == 0x1_0000_0000
    ensures 0 <= l / p < c
  {
    var q, r := l / p, l % p;
    assert l == p * q + r;
    if q >= c {
      MulMonotonic(p, c, q);
    }
  }

  lemma ShiftedOutCore(h: Word, l: Word, p: nat, c: nat, v: nat)
    requires p > 0 && c > 0 && p * c == 0x1_0000_0000
    requires Pair(h, l) == v * p
    ensures h * c % 0x1_0000_0000 == c * (h % p)
    ensures v == 0x1_0000_0000 * (h / p) + c * (h % p) + l / p
  {
    MulCommutes(p, c);
    ShiftCore(h, c, p);
    var q, r := l / p, l % p;
    assert p * (h * c + q) + r == Pair(h, l) by {
      assert p * (h * c + q) == p * (h * c) + p * q;
      MulSwap(p, h, c);
    }
    MulCommutes(v, p);
    ModUnique(Pair(h, l), p, v, 0);
    ModUnique(Pair(h, l), p, h * c + q, r);
    assert h * c == 0x1_0000_0000 * (h * c / 0x1_0000_0000) + h * c % 0x1_0000_0000;
  }

  // ---------------------------------------------------------------- fmod

  lemma OrAtLeast(a: nat, b: nat)
    ensures Or(a, b) >= a && Or(a, b) >= b
  {
  }

  /** `-w` on an unsigned word. */
  function Negate(w: Word): Word {
    Wrap(0x1_0000_0000 - w as int)
  }

  /** `(ly | -ly) >> 31` is 1 exactly for a non-zero low word. */
  lemma {:induction false} NonZeroBit(l: Word)
    ensures 0 <= Or(l, Negate(l)) < 0x1_0000_0000
    ensures Shr(Or(l, Negate(l)), 31) == if l == 0 then 0 else 1
  {
    Pow2Values();
    OrAtLeast(l, Negate(l));
    OrBound(l, Negate(l), 32);
    if l != 0 {
      WrapNoop(0x1_0000_0000 - l);
    }
  }

  /** The test of line 57 singles out the NaNs. */
  lemma NaNTest(y: Double)
    ensures Or(AbsHi(y), if y.lo == 0 then 0 else 1) > 0x7ff0_0000 <==> IsNaN(y)
  {
    var h := AbsHi(y);
    if y.lo != 0 {
      assert Or(h, 1) == if h % 2 == 1 then h else h + 1 by {
        assert Or(h / 2, 0) == h / 2;
      }
    }
  }

  /** Lines 56-57. */
  predicate Exceptional(x: Double, y: Double) {
    var hy, ly := AbsHi(y), y.lo;
    Or(hy, ly) == 0 || AbsHi(x) >= 0x7ff0_0000 || ExceedsInfinity(hy, ly)
  }

  /** `(hy | ((ly | -ly) >> 31)) > 0x7ff00000` */
  predicate ExceedsInfinity(h: nat, l: Word) {
    OrBound32(l, Negate(l));
    Or(h, Shr(Or(l, Negate(l)), 31)) > 0x7ff0_0000
  }

  lemma ExceptionalTest(x: Double, y: Double)
    ensures Exceptional(x, y) <==> IsZero(y) || !Finite(x) || IsNaN(y)
  {
    OrZeroPair(AbsHi(y), y.lo);
    NonZeroBit(y.lo);
    NaNTest(y);
    assert Pair(AbsHi(y), y.lo) == 0 <==> IsZero(y);
  }

  /** The comparisons of lines 60-71. */
  lemma WordsCompare(x: Double, y: Double)
    ensures MagnitudeBits(x) < MagnitudeBits(y) <==> AbsHi(x) < AbsHi(y) || (AbsHi(x) == AbsHi(y) && x.lo < y.lo)
    ensures MagnitudeBits(x) == MagnitudeBits(y) <==> AbsHi(x) == AbsHi(y) && x.lo == y.lo
  {
  }

  lemma BelowInfinity(x: Double, y: Double)
    requires Finite(x) && IsInfinite(y)
    ensures AbsHi(x) < AbsHi(y)
  {
    HighWordRange(x);
    HighWordRange(y);
  }

  /** `fmod`. */
  method Fmod(x: Double, y: Double) returns (r: Double)
    ensures IsNaN(x) || IsInfinite(x) || IsNaN(y) || (Finite(y) && IsZero(y)) ==> IsNaN(r)
    ensures Finite(x) && IsInfinite(y) ==> r == x
    ensures Finite(x) && Finite(y) && !IsZero(y) ==>
              && Finite(r) && Negative(r) == Negative(x)
              && Magnitude(y) > 0 && Magnitude(r) == Magnitude(x) % Magnitude(y)
  {
    var hx, lx, hy, ly := AbsHi(x), x.lo, AbsHi(y), y.lo;
    var sx := Negative(x);
    ExceptionalTest(x, y);
    if Exceptional(x, y) {
      assert IsNaN(NAN);
      return NAN;
    }
    WordsCompare(x, y);
    if IsInfinite(y) {
      BelowInfinity(x, y);
    } else {
      CompareMagnitudes(x, y);
    }
    hide Exceptional, MagnitudeBits, Magnitude, AbsHi, Negative;
    if hx <= hy {
      if hx < hy || lx < ly {
        return x;
      }
      if lx == ly {
        return SignedZero(sx);
      }
    }
    r := Remainder(x, y);
  }

  /** Lines 73-192: |x| > |y| > 0, then the remainder is packed. */
  method Remainder(x: Double, y: Double) returns (r: Double)
    requires Finite(x) && Finite(y) && !IsZero(x) && !IsZero(y)
    requires Magnitude(x) > Magnitude(y) > 0
    ensures Finite(r) && Negative(r) == Negative(x)
    ensures Magnitude(r) == Magnitude(x) % Magnitude(y)
  {
    hide Pair, Up, Magnitude, Finite, IsZero, ExponentField, Negative;
    var sx := Negative(x);
    var ix := Ilogb(x);
    var iy := Ilogb(y);
    var hx, lx := SetUp(x, ix);
    var hy, ly := SetUp(y, iy);
    ghost var vx, vy := Magnitude(x), Magnitude(y);
    ExponentsOrdered(vx, vy, Pair(hx, lx), Pair(hy, ly), ix, iy);
    RemainderScaled(vx, vy, Pair(hx, lx), Pair(hy, ly), ix, iy);
    hx, lx := Reduce(hx, lx, hy, ly, ix - iy);
    r := Finish(hx, lx, iy, sx, vx % vy);
  }

  /** Lines 195-233: a zero remainder has the sign of x, any other is normalised and packed. */
  method Finish(h: int, l: Word, e: int, negative: bool, ghost v: nat) returns (r: Double)
    requires -1074 <= e <= 1023 && h >= 0 && Pair(h, l) < 0x20_0000_0000_0000
    requires Up(v, 52) == Up(Pair(h, l), e + 1074)
    ensures Finite(r) && Negative(r) == negative && Magnitude(r) == v
  {
    OrZeroPair(h, l);
    if Or(h, l) == 0 {
      ScaledZero(v, 52, e + 1074);
      return SignedZero(negative);
    }
    r := Pack(h, l, e, negative, v);
  }

  lemma {:induction false} ScaledZero(v: nat, m: nat, n: nat)
    requires Up(v, m) == Up(0, n)
    ensures v == 0
  {
    UpTimes(0, n);
    UpGrows(v, 0, m);
  }

  lemma CompareMagnitudes(x: Double, y: Double)
    requires Finite(x) && Finite(y) && !IsZero(y)
    ensures Magnitude(y) > 0
    ensures MagnitudeBits(x) < MagnitudeBits(y) ==> Magnitude(x) % Magnitude(y) == Magnitude(x)
    ensures MagnitudeBits(x) == MagnitudeBits(y) ==> Magnitude(x) % Magnitude(y) == 0
    ensures MagnitudeBits(x) > MagnitudeBits(y) ==> Magnitude(x) > Magnitude(y) && !IsZero(x)
  {
    var zero := SignedZero(false);
    MagnitudeOrder(zero, y);
    MagnitudeOrder(x, y);
    MagnitudeOrder(y, x);
    if MagnitudeBits(x) < MagnitudeBits(y) {
      ModUnique(Magnitude(x), Magnitude(y), 0, Magnitude(x));
    } else if MagnitudeBits(x) == MagnitudeBits(y) {
      ModUnique(Magnitude(x), Magnitude(y), 1, 0);
    }
  }
}
