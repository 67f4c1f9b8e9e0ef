/** The exact part of __kernel_rem_pio2, jerry-math/trig.c: a product in chunks becomes digits of 24 bits, of which the
    number of quarter turns and the distance from the nearest one are taken. Doubles that hold integers are integers here. */
module QuadrantDigits {
  import opened Words

  const BASE := 0x100_0000

  function Base(i: nat): (b: nat)
    ensures b > 0
  {
    if i == 0 then 1 else BASE * Base(i - 1)
  }

  /** Digits, the lowest first. */
  function DigitsValue(s: seq<int>): int {
    if s == [] then 0 else DigitsValue(s[..|s| - 1]) + s[|s| - 1] * Base(|s| - 1)
  }

  /** Chunks, the highest first, each worth 2^24 times the next one. */
  function ChunksValue(q: seq<int>): int {
    if q == [] then 0 else ChunksValue(q[..|q| - 1]) * BASE + q[|q| - 1]
  }

  predicate AreDigits(s: seq<int>) {
    forall i | 0 <= i < |s| :: 0 <= s[i] < BASE
  }

  lemma {:induction false} DigitsMore(s: seq<int>, d: int)
    ensures DigitsValue(s + [d]) == DigitsValue(s) + d * Base(|s|)
  {
    assert (s + [d])[..|s|] == s;
  }

  lemma {:induction false} DigitsBelow(s: seq<int>)
    requires AreDigits(s)
    ensures 0 <= DigitsValue(s) < Base(|s|)
  {
    if s != [] {
      var n := |s| - 1;
      DigitsBelow(s[..n]);
      MulMonotonic(Base(n), 0, s[n]);
      MulMonotonic(Base(n), s[n] + 1, BASE);
      OneMore(Base(n), s[n]);
    }
  }

  lemma OneMore(b: int, d: int)
    ensures b * (d + 1) == d * b + b && b * d == d * b
  {
  }

  // ---------------------------------------------------------------- distillation

  /** What is left to distill, and what has been distilled. */
  predicate Distilled(total: int, rest: int, z: int, digits: seq<int>) {
    total == (rest * BASE + z) * Base(|digits|) + DigitsValue(digits)
  }

  lemma DistillStep(total: int, rest: int, z: int, digits: seq<int>, chunk: int, before: int)
    requires Distilled(total, rest, z, digits) && rest == before * BASE + chunk
    ensures Distilled(total, before, chunk + z / BASE, digits + [z % BASE])
  {
    var b, d, fw := Base(|digits|), z % BASE, z / BASE;
    DigitsMore(digits, d);
    assert rest * BASE + z == (before * BASE + (chunk + fw)) * BASE + d;
    Regrouped(before * BASE + (chunk + fw), d, b);
  }

  lemma Regrouped(a: int, d: int, b: int)
    ensures (a * BASE + d) * b == a * (BASE * b) + d * b
  {
  }

  /** The first loop behind `recompute`: the chunks of q up to jz become jz digits and the number z above them. */
  method Distill(q: array<int>, iq: array<int>, jz: nat) returns (z: int)
    requires jz < q.Length && jz <= iq.Length && q != iq
    requires forall j | 0 <= j <= jz :: 0 <= q[j] <= 0x3_0000_0000_0000
    modifies iq
    ensures AreDigits(iq[..jz]) && 0 <= z < 0x80_0000_0000_0000
    ensures ChunksValue(q[..jz + 1]) == z * Base(jz) + DigitsValue(iq[..jz])
  {
    z := q[jz];
    var i, j := 0, jz;
    assert q[..jz + 1][..jz] == q[..jz];
    while j > 0
      invariant i + j == jz && 0 <= z < 0x80_0000_0000_0000
      invariant AreDigits(iq[..i])
      invariant Distilled(ChunksValue(q[..jz + 1]), ChunksValue(q[..j]), z, iq[..i])
    {
      assert q[..j][..j - 1] == q[..j - 1];
      DistillStep(ChunksValue(q[..jz + 1]), ChunksValue(q[..j]), z, iq[..i], q[j - 1], ChunksValue(q[..j - 1]));
      ghost var digits := iq[..i];
      var fw := z / BASE;
      iq[i] := z - BASE * fw;
      assert iq[..i + 1] == digits + [z % BASE];
      z := q[j - 1] + fw;
      i, j := i + 1, j - 1;
    }
  }

  // ---------------------------------------------------------------- complement

  /** Digits so far and what they were: all 0, or together the next power. */
  predicate Complemented(was: seq<int>, now: seq<int>, carry: bool) {
    && |was| == |now| && AreDigits(now)
    && if carry then DigitsValue(was) + DigitsValue(now) == Base(|was|) && DigitsValue(was) > 0
       else DigitsValue(was) == 0 && DigitsValue(now) == 0
  }

  lemma ComplementStep(was: seq<int>, now: seq<int>, carry: bool, d: int)
    requires Complemented(was, now, carry) && 0 <= d < BASE && AreDigits(was)
    ensures var e := if carry then BASE - 1 - d else if d != 0 then BASE - d else 0;
      Complemented(was + [d], now + [e], carry || d != 0)
  {
    var e := if carry then BASE - 1 - d else if d != 0 then BASE - d else 0;
    var b := Base(|was|);
    DigitsMore(was, d);
    DigitsMore(now, e);
    DigitsBelow(was);
    MulSplit(b, d, e);
    MulMonotonic(b, 0, d);
    MulCommutes(b, d);
    if d != 0 {
      MulPositive(d, b);
    }
  }

  lemma MulSplit(b: int, d: int, e: int)
    ensures d * b + e * b == (d + e) * b && (BASE - 1) * b + b == BASE * b && 0 * b == 0
  {
    assert (BASE - 1) * b == BASE * b - b;
  }

  /** Lines 253-266: one digit, in place. */
  method ComplementDigit(iq: array<int>, i: nat, carry: bool) returns (more: bool)
    requires i < iq.Length
    modifies iq
    ensures var d := old(iq[i]);
      && more == (carry || d != 0)
      && iq[..] == old(iq[..])[i := if carry then BASE - 1 - d else if d != 0 then BASE - d else 0]
  {
    var j := iq[i];
    more := carry;
    if !carry {
      if j != 0 {
        more := true;
        iq[i] := BASE - j;
      }
    } else {
      iq[i] := BASE - 1 - j;
    }
  }

  lemma ComplementNext(was: seq<int>, all: seq<int>, next: seq<int>, i: nat, carry: bool)
    requires i < |was| == |all| && Complemented(was[..i], all[..i], carry) && all[i..] == was[i..]
    requires AreDigits(was[..i]) && 0 <= was[i] < BASE
    requires next == all[i := if carry then BASE - 1 - was[i] else if was[i] != 0 then BASE - was[i] else 0]
    ensures Complemented(was[..i + 1], next[..i + 1], carry || was[i] != 0) && next[i + 1..] == was[i + 1..]
  {
    hide Complemented, AreDigits;
    ComplementStep(was[..i], all[..i], carry, was[i]);
    assert was[..i + 1] == was[..i] + [was[i]] && next[..i + 1] == all[..i] + [next[i]];
    assert forall k | i < k < |was| :: next[k] == all[k] == all[i..][k - i] == was[i..][k - i];
  }

  lemma DigitsOf(s: seq<int>, i: nat, n: nat)
    requires i < n <= |s| && AreDigits(s[..n])
    ensures AreDigits(s[..i]) && 0 <= s[i] < BASE
  {
    assert s[..i] == s[..n][..i] && s[i] == s[..n][i];
  }

  /** The loop of lines 251-267: digits that are not all 0 become the complement to the next power. */
  method Complement(iq: array<int>, jz: nat) returns (carry: bool)
    requires jz <= iq.Length && AreDigits(iq[..jz])
    modifies iq
    ensures AreDigits(iq[..jz]) && iq[jz..] == old(iq[jz..])
    ensures carry <==> DigitsValue(old(iq[..jz])) != 0
    ensures DigitsValue(iq[..jz]) == if carry then Base(jz) - DigitsValue(old(iq[..jz])) else 0
  {
    hide AreDigits, DigitsValue, Base;
    carry := false;
    ghost var was := iq[..];
    NothingComplemented(was);
    for i := 0 to jz
      invariant Complemented(was[..i], iq[..][..i], carry) && iq[..][i..] == was[i..]
    {
      ghost var all := iq[..];
      assert was[i] == was[i..][0] == all[i..][0] == iq[i];
      DigitsOf(was, i, jz);
      ghost var before := carry;
      carry := ComplementDigit(iq, i, carry);
      ComplementNext(was, all, iq[..], i, before);
    }
    assert iq[..][..jz] == iq[..jz] && iq[..][jz..] == iq[jz..];
  }

  lemma NothingComplemented(was: seq<int>)
    ensures Complemented(was[..0], was[..0], false) && was[0..] == was
  {
    assert was[..0] == [];
  }

  // ---------------------------------------------------------------- quarters of a turn and the rest

  /** What a quarter of a turn is worth when the digits have the value they have, 2^(24 * jz - q0). */
  function Unit(jz: nat, q0: int): (u: nat)
    requires jz >= 1 && q0 <= 2
    ensures u > 0
  {
    if q0 > 0 then (MulPositive(Pow2(24 - q0), Base(jz - 1)); Pow2(24 - q0) * Base(jz - 1))
    else (MulPositive(Pow2(-q0), Base(jz)); Pow2(-q0) * Base(jz))
  }

  /** Whole units and a rest, and which side of a half the rest is. */
  predicate Halved(total: int, unit: int, whole: int, rest: int, far: bool) {
    total == whole * unit + rest && 0 <= rest < unit && (far <==> 2 * rest >= unit)
  }

  lemma HalvedMeans(total: int, unit: int, whole: int, rest: int, far: bool)
    requires unit > 0 && Halved(total, unit, whole, rest, far)
    ensures total / unit == whole && total % unit == rest
  {
    MulCommutes(whole, unit);
    ModUnique(total, unit, whole, rest);
  }

  /** A leading part t of 2 * h decides, whatever is below it. */
  lemma LeadingDecides(t: int, h: int, b: int, low: int)
    requires h > 0 && 0 <= t < 2 * h && 0 <= low < b
    ensures 0 <= t * b + low < (2 * h) * b
    ensures 2 * (t * b + low) >= (2 * h) * b <==> t >= h
  {
    TimesOrder(t + 1, 2 * h, b);
    TimesOrder(0, t, b);
    TimesOrder(h, t, b);
    TimesOrder(t + 1, h, b);
    OneMore(b, t);
    MulCommutes(b, t + 1);
    Twice(h, b);
  }

  lemma Twice(h: int, b: int)
    ensures (2 * h) * b == 2 * (h * b)
  {
  }

  lemma {:induction false} TopDigit(s: seq<int>)
    requires s != [] && AreDigits(s)
    ensures var low := DigitsValue(s[..|s| - 1]);
      DigitsValue(s) == low + s[|s| - 1] * Base(|s| - 1) && 0 <= low < Base(|s| - 1)
    ensures Base(|s|) == BASE * Base(|s| - 1)
  {
    DigitsBelow(s[..|s| - 1]);
  }

  lemma {:induction false} TopChanged(s: seq<int>, t: int)
    requires s != []
    ensures DigitsValue(s[|s| - 1 := t]) == DigitsValue(s) + (t - s[|s| - 1]) * Base(|s| - 1)
  {
    var r, n := s[|s| - 1 := t], |s| - 1;
    assert r[..n] == s[..n];
    Differs(t, s[n], Base(n));
  }

  lemma Differs(a: int, b: int, c: int)
    ensures (a - b) * c == a * c - b * c
  {
  }

  /** Lines 232-238: for q0 > 0 the leading bits of the top digit belong to the number of quarters. */
  lemma {:induction false} SplitTop(z0: int, s: seq<int>, q0: int)
    requires s != [] && AreDigits(s) && 1 <= q0 <= 2
    ensures var p, t := Pow2(24 - q0), s[|s| - 1];
      && p > 0 && Pow2(q0) * p == BASE && p % 2 == 0
      && Halved(z0 * Base(|s|) + DigitsValue(s), Unit(|s|, q0), z0 * Pow2(q0) + t / p,
                DigitsValue(s[|s| - 1 := t % p]), t % p >= p / 2)
  {
    hide DigitsValue, Base, Pow2, Unit;
    var p, t, b := Pow2(24 - q0), s[|s| - 1], Base(|s| - 1);
    BasePowers();
    HalfOf(q0);
    TopDigit(s);
    TopChanged(s, t % p);
    UnitHigh(|s|, q0);
    var low := DigitsValue(s[..|s| - 1]);
    var h := Pow2(23 - q0);
    LeadingDecides(t % p, h, b, low);
    Differs(t % p, t, b);
    DivMod(t, p);
    MulCommutes(t / p, p);
    SplitSum(z0, Pow2(q0), p, t / p, t % p, b);
  }

  lemma {:induction false} UnitHigh(jz: nat, q0: int)
    requires jz >= 1 && 1 <= q0 <= 2
    ensures Unit(jz, q0) == Pow2(24 - q0) * Base(jz - 1)
  {
  }

  lemma SplitSum(z: int, w: int, p: int, i: int, r: int, b: int)
    requires w * p == BASE
    ensures z * (BASE * b) + (p * i + r) * b == (z * w + i) * (p * b) + r * b
  {
    var u := p * b;
    assert BASE * b == w * u by {
      MulAssoc(w, p, b);
    }
    assert z * (w * u) == (z * w) * u by {
      MulAssoc(z, w, u);
    }
    assert (p * i) * b == i * u by {
      MulCommutes(p, i);
      MulAssoc(i, p, b);
    }
    Sum(p * i, r, b);
    Sum(z * w, i, u);
  }

  lemma Sum(a: int, b: int, c: int)
    ensures (a + b) * c == a * c + b * c
  {
  }

  lemma BasePowers()
    ensures Pow2(24) == BASE && Pow2(23) == 0x80_0000 && Pow2(22) == 0x40_0000 && Pow2(21) == 0x20_0000
    ensures Pow2(1) == 2 && Pow2(2) == 4
  {
    Pow2Values();
    assert Pow2(23) == 2 * Pow2(22) && Pow2(24) == 2 * Pow2(23);
  }

  /** Which side of a half: the top digit decides for q0 == 0, what is left of z below that. */
  lemma {:induction false} HalfDecided(rest: nat, s: seq<int>, q0: int)
    requires s != [] && AreDigits(s) && q0 <= 0 && rest < Pow2(-q0)
    ensures 0 <= rest * Base(|s|) + DigitsValue(s) < Pow2(-q0) * Base(|s|)
    ensures 2 * (rest * Base(|s|) + DigitsValue(s)) >= Pow2(-q0) * Base(|s|)
            <==> if q0 == 0 then s[|s| - 1] >= 0x80_0000 else 2 * rest >= Pow2(-q0)
  {
    hide DigitsValue, Base;
    DigitsBelow(s);
    if q0 == 0 {
      TopDigit(s);
      LeadingDecides(s[|s| - 1], 0x80_0000, Base(|s| - 1), DigitsValue(s[..|s| - 1]));
    } else {
      assert Pow2(-q0) == 2 * Pow2(-q0 - 1);
      LeadingDecides(rest, Pow2(-q0 - 1), Base(|s|), DigitsValue(s));
    }
  }

  /** For q0 == 0 and below the fraction is in z and the digits. */
  lemma {:induction false} SplitNumber(z0: nat, s: seq<int>, q0: int)
    requires s != [] && AreDigits(s) && q0 <= 0
    ensures var d := Pow2(-q0);
      Halved(z0 * Base(|s|) + DigitsValue(s), Unit(|s|, q0), z0 / d, (z0 % d) * Base(|s|) + DigitsValue(s),
             if q0 == 0 then s[|s| - 1] >= 0x80_0000 else 2 * (z0 % d) >= d)
  {
    hide DigitsValue, Base, Unit, Pow2, AreDigits;
    UnitLow(|s|, q0);
    var d, b := Pow2(-q0), Base(|s|);
    DivMod(z0, d);
    Sum((z0 / d) * d, z0 % d, b);
    MulAssoc(z0 / d, d, b);
    HalfDecided(z0 % d, s, q0);
  }

  /** The top digit without its leading bits leaves the rest below the unit. */
  lemma {:induction false} MaskedRange(s: seq<int>, q0: int)
    requires s != [] && AreDigits(s) && 1 <= q0 <= 2
    ensures var p, t, u := Pow2(24 - q0), s[|s| - 1], Unit(|s|, q0);
      var masked := s[|s| - 1 := t % p];
      && DigitsValue(s) == (t / p) * u + DigitsValue(masked) && 0 <= DigitsValue(masked) < u
      && Base(|s|) == Pow2(q0) * u && AreDigits(masked)
  {
    hide DigitsValue, Base, Pow2, Unit;
    var p, t, b := Pow2(24 - q0), s[|s| - 1], Base(|s| - 1);
    BasePowers();
    HalfOf(q0);
    TopDigit(s);
    TopChanged(s, t % p);
    UnitHigh(|s|, q0);
    var low := DigitsValue(s[..|s| - 1]);
    Differs(t % p, t, b);
    var h := Pow2(23 - q0);
    LeadingDecides(t % p, h, b, low);
    DivMod(t, p);
    MulCommutes(t / p, p);
    SplitSum(0, Pow2(q0), p, t / p, t % p, b);
    MulAssoc(Pow2(q0), p, b);
  }

  lemma OneRest(v: int, u: int, k: int, m: int, w: int, f: int)
    requires 0 < f < u && 0 <= m < u && v == k * u + m && v == w * u - f
    ensures m == u - f
  {
    Sum(w - 1, 1, u);
    MulCommutes(k, u);
    MulCommutes(w - 1, u);
    ModUnique(v, u, k, m);
    ModUnique(v, u, w - 1, u - f);
  }

  /** Lines 268-283: the complement to the whole top digit, masked, is the complement to the unit. */
  lemma {:induction false} MaskedTop(s: seq<int>, q0: int, f: int)
    requires s != [] && AreDigits(s) && 1 <= q0 <= 2 && 0 < f < Unit(|s|, q0) && DigitsValue(s) == Base(|s|) - f
    ensures DigitsValue(s[|s| - 1 := s[|s| - 1] % Pow2(24 - q0)]) == Unit(|s|, q0) - f
    ensures AreDigits(s[|s| - 1 := s[|s| - 1] % Pow2(24 - q0)])
  {
    hide DigitsValue, Base, Unit, Pow2;
    MaskedRange(s, q0);
    var p, t := Pow2(24 - q0), s[|s| - 1];
    OneRest(DigitsValue(s), Unit(|s|, q0), t / p, DigitsValue(s[|s| - 1 := t % p]), Pow2(q0), f);
  }

  /** The number of quarters modulo 8, rounded to the nearest, and the distance from it. */
  predicate IsQuarters(total: int, unit: int, n: int, ih: int, rest: int)
    requires unit > 0
  {
    var far := 2 * (total % unit) >= unit;
    && (ih > 0 <==> far) && n == total / unit % 8 + (if far then 1 else 0)
    && rest == if far then unit - total % unit else total % unit
  }

  /** Lines 232-238. */
  method TakeTop(iq: array<int>, jz: nat, q0: int, ghost z0: nat) returns (i: int, ih: int)
    requires 1 <= jz <= iq.Length && AreDigits(iq[..jz]) && 1 <= q0 <= 2
    modifies iq
    ensures AreDigits(iq[..jz]) && iq[jz..] == old(iq[jz..])
    ensures 0 <= i < Pow2(q0)
    ensures Halved(z0 * Base(jz) + DigitsValue(old(iq[..jz])), Unit(jz, q0), z0 * Pow2(q0) + i, DigitsValue(iq[..jz]), ih > 0)
  {
    hide DigitsValue, Base, Unit, Pow2;
    ghost var s := iq[..jz];
    BasePowers();
    SplitTop(z0, s, q0);
    var p := Pow2(24 - q0);
    i := iq[jz - 1] / p;
    DivMod(s[jz - 1], p);
    QuotientBelow(s[jz - 1], p, Pow2(q0));
    iq[jz - 1] := iq[jz - 1] - i * p;
    assert iq[jz - 1] == s[jz - 1] % p;
    ih := iq[jz - 1] / Pow2(23 - q0);
    HalfOf(q0);
    HalfBit(iq[jz - 1], Pow2(23 - q0));
    assert iq[..jz] == s[jz - 1 := s[jz - 1] % p];
  }

  lemma QuotientBelow(t: nat, p: nat, w: nat)
    requires p > 0 && t < w * p
    ensures t / p < w
  {
    DivMod(t, p);
    TimesOrder(w, t / p, p);
  }

  lemma {:induction false} HalfOf(q0: int)
    requires 1 <= q0 <= 2
    ensures Pow2(24 - q0) == 2 * Pow2(23 - q0)
  {
  }

  lemma HalfBit(t: nat, h: nat)
    requires h > 0 && t < 2 * h
    ensures t / h > 0 <==> t >= 2 * h / 2
  {
    DivMod(t, h);
    TimesOrder(t / h, 0, h);
    TimesOrder(1, t / h, h);
  }

  /** Lines 251-283 for q0 > 0. */
  method ComplementToUnit(iq: array<int>, jz: nat, q0: int)
    requires 1 <= jz <= iq.Length && AreDigits(iq[..jz]) && 1 <= q0 <= 2 && 0 < DigitsValue(iq[..jz]) < Unit(jz, q0)
    modifies iq
    ensures AreDigits(iq[..jz]) && iq[jz..] == old(iq[jz..])
    ensures DigitsValue(iq[..jz]) == Unit(jz, q0) - DigitsValue(old(iq[..jz]))
  {
    hide DigitsValue, Base, Unit, Pow2;
    var carry := Complement(iq, jz);
    ghost var complement := iq[..jz];
    MaskedTop(complement, q0, DigitsValue(old(iq[..jz])));
    BasePowers();
    AndMask(iq[jz - 1], 24 - q0);
    iq[jz - 1] := And(iq[jz - 1], if q0 == 1 then 0x7f_ffff else 0x3f_ffff);
    assert iq[..jz] == complement[jz - 1 := complement[jz - 1] % Pow2(24 - q0)];
  }

  /** From `compute n` to the check for recomputation, for q0 > 0: z is an integer. */
  method QuartersHigh(iq: array<int>, jz: nat, z0: nat, q0: int) returns (n: int, ih: int)
    requires 1 <= jz <= iq.Length && AreDigits(iq[..jz]) && 1 <= q0 <= 2
    modifies iq
    ensures AreDigits(iq[..jz]) && iq[jz..] == old(iq[jz..])
    ensures IsQuarters(z0 * Base(jz) + DigitsValue(old(iq[..jz])), Unit(jz, q0), n, ih, DigitsValue(iq[..jz]))
  {
    hide DigitsValue, Base, Unit, Pow2;
    ghost var total := z0 * Base(jz) + DigitsValue(iq[..jz]);
    BasePowers();
    n := z0 * Pow2(q0) % 8;
    var i: int;
    i, ih := TakeTop(iq, jz, q0, z0);
    QuartersSum(z0, Pow2(q0), i);
    n := n + i;
    HalvedMeans(total, Unit(jz, q0), z0 * Pow2(q0) + i, DigitsValue(iq[..jz]), ih > 0);
    if ih > 0 {
      n := n + 1;
      ComplementToUnit(iq, jz, q0);
    }
  }

  lemma QuartersSum(z: nat, w: nat, i: nat)
    requires (w == 2 || w == 4) && i < w
    ensures z * w % 8 + i == (z * w + i) % 8
  {
  }

  /** The same for q0 <= 0: z counts units of 2^q0. */
  method QuartersLow(iq: array<int>, jz: nat, z0: nat, q0: int) returns (n: int, ih: int, z: int)
    requires 1 <= jz <= iq.Length && AreDigits(iq[..jz]) && q0 <= 0
    modifies iq
    ensures AreDigits(iq[..jz]) && iq[jz..] == old(iq[jz..]) && 0 <= z <= Pow2(-q0)
    ensures IsQuarters(z0 * Base(jz) + DigitsValue(old(iq[..jz])), Unit(jz, q0), n, ih, z * Base(jz) + DigitsValue(iq[..jz]))
  {
    hide DigitsValue, Base, Unit, Pow2;
    ghost var s := iq[..jz];
    ghost var total := z0 * Base(jz) + DigitsValue(s);
    SplitNumber(z0, s, q0);
    var one := Pow2(-q0);
    z := z0 % (8 * one);
    n := z / one;
    z := z % one;
    QuartersOf(z0, one);
    ghost var rest := z * Base(jz) + DigitsValue(s);
    HalvedMeans(total, Unit(jz, q0), z0 / one, rest, if q0 == 0 then s[jz - 1] >= 0x80_0000 else 2 * z >= one);
    ih := 0;
    if q0 == 0 {
      ih := iq[jz - 1] / 0x80_0000;
    } else if 2 * z >= one {
      ih := 2;
    }
    if ih > 0 {
      n := n + 1;
      UnitLow(jz, q0);
      var carry := Complement(iq, jz);
      RestOf(one, z, Base(jz), DigitsValue(s), carry);
      if ih == 2 {
        z := one - z;
        if carry {
          z := z - 1;
        }
      }
    }
  }

  lemma {:induction false} UnitLow(jz: nat, q0: int)
    requires jz >= 1 && q0 <= 0
    ensures Unit(jz, q0) == Pow2(-q0) * Base(jz) && (q0 == 0 ==> Pow2(-q0) == 1)
  {
  }

  lemma RestOf(one: int, z: int, b: int, v: int, carry: bool)
    ensures (one - z - 1) * b + (b - v) == one * b - (z * b + v)
    ensures (one - z) * b == one * b - z * b
    ensures 0 * b == 0 && 1 * b == b
  {
  }

  lemma QuartersOf(z: nat, one: nat)
    requires one > 0
    ensures z % (8 * one) / one == z / one % 8 && z % (8 * one) % one == z % one
  {
    var r := z % (8 * one);
    DivMod(z, 8 * one);
    DivMod(r, one);
    QuotientBelow(r, one, 8);
    QuartersParts(z, one, z / (8 * one), r, r / one, r % one);
  }

  lemma QuartersParts(z: int, one: int, q: int, r: int, n: int, y: int)
    requires z == q * (8 * one) + r && r == n * one + y && 0 <= y < one && 0 <= n < 8
    ensures z / one % 8 == n && z % one == y
  {
    MulAssoc(q, 8, one);
    Sum(q * 8, n, one);
    MulCommutes(8 * q + n, one);
    ModUnique(z, one, 8 * q + n, y);
    assert (8 * q + n) % 8 == n;
  }

  /** From `recompute` to the check for recomputation: of what the chunks are worth together, the number n of quarter turns
      next to it, and in z and the digits the distance from there. */
  method Quarters(q: array<int>, iq: array<int>, jz: nat, q0: int) returns (n: int, ih: int, z: int)
    requires 1 <= jz < q.Length && jz <= iq.Length && q != iq && q0 <= 2
    requires forall j | 0 <= j <= jz :: 0 <= q[j] <= 0x3_0000_0000_0000
    modifies iq
    ensures AreDigits(iq[..jz]) && z >= 0 && (q0 > 0 ==> z == 0)
    ensures IsQuarters(ChunksValue(q[..jz + 1]), Unit(jz, q0), n, ih, z * Base(jz) + DigitsValue(iq[..jz]))
  {
    hide DigitsValue, ChunksValue, Base, Unit, Pow2, IsQuarters;
    z := Distill(q, iq, jz);
    if q0 > 0 {
      n, ih := QuartersHigh(iq, jz, z, q0);
      z := 0;
    } else {
      n, ih, z := QuartersLow(iq, jz, z, q0);
    }
  }
}
