/** Machine words as the engine uses them: 32-bit unsigned values, powers of two, and the bit
    operations of C on them. All of it is arithmetic over unbounded integers; every wrap-around of the
    original is written out with Wrap. */
module Words {
  const SIGN_BIT := 0x8000_0000

  type Word = w: int | 0 <= w < 0x1_0000_0000

  /** The low 32 bits of an integer, as a store into an `unsigned` variable keeps them. */
  function Wrap(x: int): Word {
    x % 0x1_0000_0000
  }

  /** A word read back as a signed 32-bit integer. */
  function Signed(w: Word): int {
    if w < 0x8000_0000 then w else w - 0x1_0000_0000
  }

  function Pow2(n: nat): (p: nat)
    ensures p > 0
  {
    if n == 0 then 1 else 2 * Pow2(n - 1)
  }

  lemma {:induction false} Pow2Add(m: nat, n: nat)
    ensures Pow2(m + n) == Pow2(m) * Pow2(n)
  {
    if n != 0 {
      Pow2Add(m, n - 1);
      assert Pow2(m + n) == 2 * Pow2(m + (n - 1));
      MulSwap(2, Pow2(m), Pow2(n - 1));
    }
  }

  /** The same law for an exponent given as a total. */
  lemma {:induction false} Pow2Sum(total: nat, m: nat, n: nat)
    requires total == m + n
    ensures Pow2(total) == Pow2(m) * Pow2(n)
  {
    Pow2Add(m, n);
  }

  lemma MulSwap(a: int, b: int, c: int)
    ensures a * (b * c) == b * (a * c)
  {
  }

  lemma {:induction false} Pow2Monotonic(m: nat, n: nat)
    requires m <= n
    ensures Pow2(m) <= Pow2(n)
    decreases n
  {
    if m < n {
      Pow2Monotonic(m, n - 1);
    }
  }

  lemma Pow2Values()
    ensures Pow2(8) == 0x100 && Pow2(11) == 0x800 && Pow2(16) == 0x1_0000 && Pow2(20) == 0x10_0000
    ensures Pow2(21) == 0x20_0000 && Pow2(22) == 0x40_0000 && Pow2(31) == 0x8000_0000
    ensures Pow2(32) == 0x1_0000_0000
    ensures Pow2(52) == 0x10_0000_0000_0000 && Pow2(53) == 0x20_0000_0000_0000
    ensures Pow2(54) == 0x40_0000_0000_0000
  {
    assert Pow2(8) == 0x100;
    Pow2Add(8, 3);
    Pow2Add(8, 8);
    Pow2Add(16, 4);
    Pow2Add(20, 1);
    Pow2Add(20, 2);
    Pow2Add(20, 11);
    Pow2Add(16, 16);
    Pow2Add(32, 20);
    Pow2Add(52, 1);
    Pow2Add(52, 2);
    assert Pow2(1) == 2 && Pow2(2) == 4 && Pow2(3) == 8 && Pow2(4) == 16;
  }

  // ---------------------------------------------------------------- scaling by powers of two

  /** c * 2^n, as repeated doubling. */
  function Up(c: int, n: nat): int {
    if n == 0 then c else 2 * Up(c, n - 1)
  }

  lemma {:induction false} UpTimes(c: int, n: nat)
    ensures Up(c, n) == c * Pow2(n)
  {
    if n != 0 {
      UpTimes(c, n - 1);
      MulSwap(c, 2, Pow2(n - 1));
    }
  }

  lemma {:induction false} UpTwice(c: int, m: nat, n: nat)
    ensures Up(Up(c, m), n) == Up(c, m + n)
  {
    if n != 0 {
      UpTwice(c, m, n - 1);
      assert Up(c, m + n) == 2 * Up(c, m + n - 1);
    }
  }

  lemma {:induction false} UpOrder(a: int, b: int, n: nat)
    ensures a < b <==> Up(a, n) < Up(b, n)
    ensures a <= b <==> Up(a, n) <= Up(b, n)
  {
    if n != 0 {
      UpOrder(a, b, n - 1);
    }
  }

  lemma {:induction false} UpSum(a: int, b: int, n: nat)
    ensures Up(a + b, n) == Up(a, n) + Up(b, n)
    ensures Up(a - b, n) == Up(a, n) - Up(b, n)
    ensures Up(2 * a, n) == 2 * Up(a, n)
  {
    if n != 0 {
      UpSum(a, b, n - 1);
    }
  }

  lemma {:induction false} UpGrows(c: nat, m: nat, n: nat)
    requires m <= n
    ensures 0 <= c <= Up(c, m) <= Up(c, n)
    decreases n
  {
    if m < n {
      UpGrows(c, m, n - 1);
    } else if n != 0 {
      UpGrows(c, n - 1, n - 1);
    }
  }

  lemma {:induction false} UpSquare(a: int, n: nat)
    ensures Up(a, n) * Up(a, n) == Up(a * a, 2 * n)
  {
    if n != 0 {
      UpSquare(a, n - 1);
      DoubleSquare(Up(a, n - 1));
      assert Up(a * a, 2 * n) == 2 * Up(a * a, 2 * n - 1) == 4 * Up(a * a, 2 * n - 2);
    }
  }

  lemma {:induction false} UpMultiple(h: nat, i: nat)
    ensures Up(h, i) >= 0 && Up(h, i) % Pow2(i) == 0
  {
    UpGrows(h, 0, i);
    UpTimes(h, i);
    MulCommutes(h, Pow2(i));
    ModOfMultiple(h, Pow2(i));
  }

  lemma MulCommutes(a: int, b: int)
    ensures a * b == b * a
  {
  }

  lemma DivMod(a: nat, b: nat)
    requires b > 0
    ensures a == (a / b) * b + a % b
  {
    MulCommutes(a / b, b);
  }

  /** A positive value scaled up i times stays below 2^k only when i < k. */
  lemma {:induction false} UpBound(h: nat, i: nat, k: nat)
    requires h > 0 && Up(h, i) < Pow2(k)
    ensures i < k
  {
    UpTimes(h, i);
    ShiftBound(h, i, k);
  }

  // ---------------------------------------------------------------- shifts

  /** `w << n` on an unsigned word. */
  function Shl(w: Word, n: nat): Word {
    Wrap(w * Pow2(n))
  }

  /** `w >> n` on an unsigned word. */
  function Shr(w: Word, n: nat): (r: Word)
    ensures r <= w
  {
    DivAtMost(w, Pow2(n));
    w / Pow2(n)
  }

  lemma DivAtMost(a: nat, b: nat)
    requires b > 0
    ensures 0 <= a / b <= a
  {
    var q, r := a / b, a % b;
    assert a == b * q + r && q >= 0;
    MulMonotonic(q, 1, b);
  }

  lemma MulMonotonic(b: nat, x: int, y: int)
    requires x <= y
    ensures b * x <= b * y
  {
  }

  // ---------------------------------------------------------------- bitwise and / or

  /** Bitwise conjunction of two non-negative integers. */
  function And(a: nat, b: nat): (r: nat)
    ensures r <= a && r <= b
  {
    if a == 0 || b == 0 then 0
    else 2 * And(a / 2, b / 2) + (if a % 2 == 1 && b % 2 == 1 then 1 else 0)
  }

  /** Bitwise disjunction of two non-negative integers. */
  function Or(a: nat, b: nat): nat {
    if a == 0 then b
    else if b == 0 then a
    else 2 * Or(a / 2, b / 2) + (if a % 2 == 1 || b % 2 == 1 then 1 else 0)
  }

  /** Or of two values with no common bit is their sum. */
  lemma {:induction false} OrDisjoint(a: nat, b: nat, k: nat)
    requires a % Pow2(k) == 0 && b < Pow2(k)
    ensures Or(a, b) == a + b
  {
    if a != 0 && b != 0 {
      HalfMultiple(a, Pow2(k - 1));
      OrDisjoint(a / 2, b / 2, k - 1);
    }
  }

  lemma HalfMultiple(a: nat, p: nat)
    requires p > 0 && a % (2 * p) == 0
    ensures a % 2 == 0 && (a / 2) % p == 0
  {
    var q := a / (2 * p);
    assert a == 2 * p * q == 2 * (p * q);
    assert a / 2 == p * q;
    ModOfMultiple(q, p);
  }

  lemma {:induction false} ModOfMultiple(q: int, p: nat)
    requires p > 0
    ensures (p * q) % p == 0
  {
    ModUnique(p * q, p, q, 0);
  }

  /** Quotient and remainder are the only decomposition with a remainder in range. */
  lemma ModUnique(a: int, b: int, q: int, r: int)
    requires b > 0 && a == b * q + r && 0 <= r < b
    ensures a / b == q && a % b == r
  {
    var q', r' := a / b, a % b;
    assert a == b * q' + r';
    assert b * (q - q') == r' - r;
    if q > q' {
      MulMonotonic(b, 1, q - q');
      assert false;
    } else if q < q' {
      MulMonotonic(b, q - q', -1);
      assert false;
    }
  }

  /** And with a block of k low ones keeps the remainder modulo Pow2(k). */
  lemma {:induction false} AndMask(a: nat, k: nat)
    ensures And(a, Pow2(k) - 1) == a % Pow2(k)
  {
    if k == 0 {
      assert Pow2(0) == 1;
    } else if a != 0 {
      var p := Pow2(k - 1);
      AndMask(a / 2, k - 1);
      HalfMod(a, p);
      MaskStep(a, p);
    }
  }

  lemma {:induction false} MaskStep(a: nat, p: nat)
    requires a > 0 && p > 0
    ensures And(a, 2 * p - 1) == 2 * And(a / 2, p - 1) + a % 2
  {
    var b: nat := 2 * p - 1;
    assert b / 2 == p - 1 && b % 2 == 1;
  }

  lemma HalfMod(a: nat, p: nat)
    requires p > 0
    ensures a % (2 * p) == 2 * (a / 2 % p) + a % 2
    ensures a / 2 / p == a / (2 * p)
  {
    var h := a / 2;
    var q, r := h / p, h % p;
    assert h == p * q + r;
    assert a == 2 * h + a % 2;
    assert a == (2 * p) * q + (2 * r + a % 2);
    ModUnique(a, 2 * p, q, 2 * r + a % 2);
  }

  lemma {:induction false} EvenStep(a: nat, p: nat)
    requires p > 0
    ensures And(a, 2 * p) == 2 * And(a / 2, p)
  {
    assert 2 * p / 2 == p && (2 * p) % 2 == 0;
    if a == 0 {
      assert And(0, p) == 0;
    }
  }

  lemma {:induction false} AndOne(a: nat)
    ensures And(a, 1) == a % 2
  {
    if a != 0 {
      assert And(a / 2, 0) == 0;
    }
  }

  /** And with a single bit tests it. */
  lemma {:induction false} AndBit(a: nat, k: nat)
    ensures And(a, Pow2(k)) == if a / Pow2(k) % 2 == 1 then Pow2(k) else 0
  {
    hide And;
    if k == 0 {
      assert Pow2(0) == 1;
      AndOne(a);
    } else {
      var p := Pow2(k - 1);
      AndBit(a / 2, k - 1);
      EvenStep(a, p);
      HalfMod(a, p);
    }
  }

  lemma {:induction false} OrCommutes(a: nat, b: nat)
    ensures Or(a, b) == Or(b, a)
  {
    if a != 0 && b != 0 {
      OrCommutes(a / 2, b / 2);
    }
  }

  /** Or-ing in a multiple of Pow2(k) leaves the low k bits alone. */
  lemma {:induction false} OrHighKeepsLow(a: nat, b: nat, k: nat)
    requires b % Pow2(k) == 0
    ensures Or(a, b) % Pow2(k) == a % Pow2(k)
  {
    if k == 0 {
    } else if a == 0 || b == 0 {
    } else {
      var p := Pow2(k - 1);
      HalfMultiple(b, p);
      OrHighKeepsLow(a / 2, b / 2, k - 1);
      HalfMod(a, p);
      HalfMod(Or(a, b), p);
    }
  }

  /** A positive value shifted left i places stays below Pow2(k) only when i < k. */
  lemma {:induction false} ShiftBound(h: nat, i: nat, k: nat)
    requires h > 0 && h * Pow2(i) < Pow2(k)
    ensures i < k
  {
    MulMonotonic(Pow2(i), 1, h);
    if i >= k {
      Pow2Monotonic(k, i);
    }
  }

  /** Below 2^(i + j), the next multiple of 2^i is at most 2^(i + j). */
  lemma {:induction false} NextMultiple(h: nat, i: nat, j: nat)
    requires Up(h, i) < Pow2(i + j)
    ensures Up(h, i) + Pow2(i) <= Pow2(i + j)
  {
    UpTimes(1, i + j);
    UpTimes(1, j);
    UpTimes(1, i);
    UpTwice(1, j, i);
    UpOrder(h, Up(1, j), i);
    UpOrder(h + 1, Up(1, j), i);
    UpSum(h, 1, i);
  }

  lemma {:induction false} OrBound(a: nat, b: nat, k: nat)
    requires a < Pow2(k) && b < Pow2(k)
    ensures Or(a, b) < Pow2(k)
  {
    if a != 0 && b != 0 {
      OrBound(a / 2, b / 2, k - 1);
    }
  }

  lemma {:induction false} OrBound32(a: Word, b: Word)
    ensures 0 <= Or(a, b) < 0x1_0000_0000
  {
    Pow2Values();
    OrBound(a, b, 32);
  }

  /** With p * c = 2^32, multiplying a word by p carries its quotient by c out of the word and keeps
      the remainder by c, multiplied by p. */
  lemma ShiftCore(w: Word, p: nat, c: nat)
    requires p > 0 && c > 0 && p * c == 0x1_0000_0000
    ensures w * p / 0x1_0000_0000 == w / c < p
    ensures w * p % 0x1_0000_0000 == p * (w % c)
  {
    var q, r := w / c, w % c;
    assert w == c * q + r;
    MulLess(r, c, p);
    assert 0 <= p * r < 0x1_0000_0000 by {
      MulMonotonic(p, 0, r);
    }
    Distribute(p, c, q, r);
    ModUnique(w * p, 0x1_0000_0000, q, p * r);
    if q >= p {
      MulMonotonic(c, p, q);
      assert false;
    }
  }

  lemma Distribute(p: int, c: int, q: int, r: int)
    ensures (c * q + r) * p == (p * c) * q + p * r
  {
    assert (c * q + r) * p == (c * q) * p + r * p;
    MulAssoc(p, c, q);
  }

  lemma MulAssoc(a: int, b: int, c: int)
    ensures a * (b * c) == (a * b) * c
  {
  }

  lemma MulLess(a: int, b: int, p: int)
    requires a < b && p > 0
    ensures a * p < b * p && p * a < p * b
  {
  }

  /** Multiplying by a positive factor keeps the order both ways. */
  lemma TimesOrder(a: int, b: int, p: int)
    requires p > 0
    ensures a <= b <==> a * p <= b * p
    ensures a < b <==> a * p < b * p
  {
    if a < b {
      MulLess(a, b, p);
    } else if b < a {
      MulLess(b, a, p);
    }
  }

  lemma DoubleSquare(a: int)
    ensures (2 * a) * (2 * a) == 4 * (a * a)
  {
  }

  lemma MulPositive(a: int, b: int)
    requires a > 0 && b > 0
    ensures a * b > 0
  {
  }

  /** A left shift by n of a word splits into the bits carried out and the bits kept. */
  lemma {:induction false} ShiftSplit(w: Word, n: nat)
    requires 1 <= n <= 32
    ensures Shr(w, 32 - n) * 0x1_0000_0000 + Shl(w, n) == Up(w, n)
    ensures Shr(w, 32 - n) < Pow2(n)
    ensures Shl(w, n) % Pow2(n) == 0
  {
    UpTimes(w, n);
    Pow2Values();
    Pow2Add(n, 32 - n);
    ShiftCore(w, Pow2(n), Pow2(32 - n));
    ModOfMultiple(w % Pow2(32 - n), Pow2(n));
  }

  // ---------------------------------------------------------------- pairs of words

  /** A high and a low word as one integer. */
  function Pair(hi: int, lo: int): int {
    hi * 0x1_0000_0000 + lo
  }

  lemma {:induction false} PairUp(h: int, lo: int, i: nat)
    ensures Up(Pair(h, lo), i) == Up(h, i) * 0x1_0000_0000 + Up(lo, i)
  {
    if i != 0 {
      PairUp(h, lo, i - 1);
    }
  }

  lemma WrapNoop(x: int)
    requires 0 <= x < 0x1_0000_0000
    ensures Wrap(x) == x
  {
  }
}
