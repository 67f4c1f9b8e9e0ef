/** The extended info of compiled code (jerry-core/ecma/base/ecma-extended-info.c): bytes in front of the serialisable values, read
    backwards. Without source code ranges it holds a byte of flags and the length of the argument list. */
module ExtendedInfo {
  import opened Words
  import opened Bytes

  // ---------------------------------------------------------------- numbers

  /** `ecma_extended_info_decode_vlq`: the number that ends in front of place p, behind the value so far, and where it begins.
      The highest bit of a byte says that there is more in front of it; nothing is read in front of the bytes given. */
  function ReadVlq(s: seq<Byte>, p: nat, value: Word): (r: (Word, nat))
    requires p <= |s|
    ensures r.1 <= p
  {
    if p == 0 then (value, 0)
    else
      var next := Wrap(0x80 * value + s[p - 1] % 0x80);
      if s[p - 1] >= 0x80 then ReadVlq(s, p - 1, next) else (next, p - 1)
  }

  /** Some byte in front of place p ends a number. */
  predicate Ends(s: seq<Byte>, p: nat)
    requires p <= |s|
  {
    exists k | 0 <= k < p :: s[k] < 0x80
  }

  /** One byte more, as shifts and masks have it. */
  lemma {:induction false} NextValue(value: Word, b: Byte)
    ensures Or(Shl(value, 7), And(b, 0x7f)) == Wrap(0x80 * value + b % 0x80)
    ensures And(b, 0x80) != 0 <==> b >= 0x80
  {
    hide Or, And, Shl, Wrap, Pow2;
    SevenBits();
    AndMask(b, 7);
    AndBit(b, 7);
    var high := Shl(value, 7);
    ShiftedValue(value, b % 0x80);
    OrDisjoint(high, b % 0x80, 7);
  }

  lemma SevenBits()
    ensures Pow2(7) == 0x80
  {
    assert Pow2(7) == 2 * Pow2(6) && Pow2(5) == 2 * Pow2(4) && Pow2(3) == 2 * Pow2(2) && Pow2(1) == 2 * Pow2(0);
  }

  lemma ShiftedValue(value: Word, low: nat)
    requires low < 0x80 && Pow2(7) == 0x80
    ensures Shl(value, 7) % 0x80 == 0 && Shl(value, 7) + low == Wrap(0x80 * value + low)
  {
    var q, r := value / 0x200_0000, value % 0x200_0000;
    ModUnique(0x80 * value, 0x1_0000_0000, q, 0x80 * r);
    ModUnique(0x80 * value + low, 0x1_0000_0000, q, 0x80 * r + low);
    ModUnique(0x80 * r, 0x80, r, 0);
  }

  method DecodeVlq(s: seq<Byte>, p: nat) returns (value: Word, next: nat)
    requires 0 < p <= |s| && Ends(s, p)
    ensures (value, next) == ReadVlq(s, p, 0) && next < p
  {
    hide Or, And, Shl, Wrap;
    value, next := 0, p;
    while true
      invariant 0 < next <= p && Ends(s, next) && ReadVlq(s, next, value) == ReadVlq(s, p, 0)
      decreases next
    {
      next := next - 1;
      NextValue(value, s[next]);
      value := Or(Shl(value, 7), And(s[next], 0x7f));
      if And(s[next], 0x80) == 0 {
        return;
      }
    }
  }

  function Continued(value: nat): (s: seq<Byte>)
    ensures |s| >= 1
  {
    [value % 0x80 + 0x80] + if value < 0x80 then [] else Continued(value / 0x80)
  }

  /** The bytes of a number, the low ones first. */
  function Encoded(value: nat): (s: seq<Byte>)
    ensures |s| >= 1
  {
    [value % 0x80] + if value < 0x80 then [] else Continued(value / 0x80)
  }

  /** One place further to the front. */
  lemma NextByte(s: seq<Byte>, p: nat, value: Word, b: Byte)
    requires p < |s| && s[p] == b
    ensures var next := Wrap(0x80 * value + b % 0x80);
            ReadVlq(s, p + 1, value) == if b >= 0x80 then ReadVlq(s, p, next) else (next, p)
  {
  }

  /** Seven bits taken off and put on again. */
  lemma DigitBack(value: Word)
    ensures Wrap(0x80 * (value / 0x80) + value % 0x80) == value
  {
  }

  lemma RestOfSlice(s: seq<Byte>, p: nat, first: Byte, rest: seq<Byte>)
    requires p + 1 + |rest| <= |s| && s[p..p + 1 + |rest|] == [first] + rest
    ensures s[p] == first && s[p + 1..p + 1 + |rest|] == rest
  {
    SliceOfSlice(s, p, p + 1 + |rest|, 1, 1 + |rest|);
    assert s[p] == s[p..p + 1 + |rest|][0];
  }

  lemma {:induction false} ContinuedReads(s: seq<Byte>, p: nat, value: Word)
    requires p + |Continued(value)| <= |s| && s[p..p + |Continued(value)|] == Continued(value)
    ensures ReadVlq(s, p + |Continued(value)|, 0) == ReadVlq(s, p, value)
    decreases value
  {
    hide ReadVlq, Wrap;
    var high: Word := value / 0x80;
    var rest := if value < 0x80 then [] else Continued(high);
    assert Continued(value) == [value % 0x80 + 0x80] + rest;
    hide Continued;
    RestOfSlice(s, p, value % 0x80 + 0x80, rest);
    if value >= 0x80 {
      ContinuedReads(s, p + 1, high);
    }
    NextByte(s, p, high, value % 0x80 + 0x80);
    DigitBack(value);
  }

  /** A number is read back from behind, whatever is in front of it. */
  lemma {:induction false} VlqReadsBack(s: seq<Byte>, p: nat, value: Word)
    requires p + |Encoded(value)| <= |s| && s[p..p + |Encoded(value)|] == Encoded(value)
    ensures ReadVlq(s, p + |Encoded(value)|, 0) == (value, p) && Ends(s, p + |Encoded(value)|)
  {
    hide ReadVlq, Wrap, Ends, Continued;
    var high: Word := value / 0x80;
    var rest := if value < 0x80 then [] else Continued(high);
    RestOfSlice(s, p, value % 0x80, rest);
    LastDigit(s, p, high, value % 0x80);
    DigitBack(value);
    if value >= 0x80 {
      hide Encoded;
      ContinuedReads(s, p + 1, high);
    }
    EndsThere(s, p, p + |Encoded(value)|);
  }

  lemma LastDigit(s: seq<Byte>, p: nat, value: Word, b: Byte)
    requires p < |s| && s[p] == b < 0x80
    ensures ReadVlq(s, p + 1, value) == (Wrap(0x80 * value + b), p)
  {
  }

  lemma EndsThere(s: seq<Byte>, k: nat, p: nat)
    requires k < p <= |s| && s[k] < 0x80
    ensures Ends(s, p)
  {
  }

  /** The first loop of `ecma_extended_info_encode_vlq`: how many bytes a number above 0x7f takes besides the first. */
  method CountDigits(value: Word) returns (length: nat)
    requires value > 0x7f
    ensures length == |Continued(value / 0x80)|
  {
    length := 0;
    var current: Word := value / 0x80;
    while true
      invariant |Continued(value / 0x80)| == length + |Continued(current)|
      decreases current
    {
      length := length + 1;
      if current / 0x80 == 0 {
        return;
      }
      current := current / 0x80;
    }
  }

  /** Its second loop: the bytes from place p on, all with the highest bit. */
  method WriteDigits(buffer: array<Byte>, p: nat, value: Word)
    requires p + |Continued(value)| <= buffer.Length
    modifies buffer
    ensures buffer[..] == Splice(old(buffer[..]), p, Continued(value))
  {
    hide Splice, Continued;
    ghost var s := buffer[..];
    ghost var done: seq<Byte> := [];
    var place: nat, rest: Word := p, value;
    NothingWritten(s, p);
    while true
      invariant place == p + |done| && Continued(value) == done + Continued(rest)
      invariant buffer[..] == Splice(s, p, done)
      decreases rest
    {
      FirstDigits(done, rest);
      OneMore(s, p, done, rest % 0x80 + 0x80);
      buffer[place] := rest % 0x80 + 0x80;
      done := done + [rest % 0x80 + 0x80];
      place := place + 1;
      rest := rest / 0x80;
      if rest == 0 {
        return;
      }
    }
  }

  lemma FirstDigits(done: seq<Byte>, rest: Word)
    ensures done + Continued(rest)
         == done + [rest % 0x80 + 0x80] + if rest / 0x80 == 0 then [] else Continued(rest / 0x80)
  {
  }

  lemma NothingWritten(s: seq<Byte>, p: nat)
    requires p <= |s|
    ensures Splice(s, p, []) == s
  {
  }

  lemma OneMore(s: seq<Byte>, p: nat, done: seq<Byte>, digit: Byte)
    requires p + |done| < |s|
    ensures Splice(s, p, done)[p + |done| := digit] == Splice(s, p, done + [digit])
  {
  }

  /** `ecma_extended_info_encode_vlq`: the bytes in front of place p, and where they begin. */
  method EncodeVlq(buffer: array<Byte>, p: nat, value: Word) returns (next: nat)
    requires |Encoded(value)| <= p <= buffer.Length
    modifies buffer
    ensures next + |Encoded(value)| == p && buffer[..] == Splice(old(buffer[..]), next, Encoded(value))
  {
    ghost var s := buffer[..];
    var destination: nat := p - 1;
    if value <= 0x7f {
      buffer[destination] := value;
      return destination;
    }
    hide Splice, Continued, Encoded;
    FirstDigit(s, p - |Encoded(value)|, value);
    var length := CountDigits(value);
    DigitCount(value);
    next := destination - length;
    WriteDigits(buffer, next, value);
    buffer[next] := buffer[next] % 0x80;
  }

  lemma DigitCount(value: Word)
    requires value > 0x7f
    ensures |Encoded(value)| == 1 + |Continued(value / 0x80)|
  {
  }

  /** Without the highest bit of the first byte. */
  lemma FirstDigit(s: seq<Byte>, p: nat, value: Word)
    requires p + |Continued(value)| <= |s|
    ensures |Encoded(value)| == |Continued(value)|
    ensures Splice(s, p, Continued(value))[p] == value % 0x80 + 0x80
    ensures Splice(s, p, Continued(value))[p := value % 0x80] == Splice(s, p, Encoded(value))
  {
    var all, rest := Continued(value), Continued(value)[1..];
    assert all == [value % 0x80 + 0x80] + rest && Encoded(value) == [value % 0x80] + rest;
    hide Continued, Encoded;
    OtherFirst(s, p, value % 0x80 + 0x80, value % 0x80, rest);
  }

  lemma OtherFirst(s: seq<Byte>, p: nat, first: Byte, other: Byte, rest: seq<Byte>)
    requires p + 1 + |rest| <= |s|
    ensures Splice(s, p, [first] + rest)[p] == first
    ensures Splice(s, p, [first] + rest)[p := other] == Splice(s, p, [other] + rest)
  {
    assert Splice(s, p, [first] + rest) == s[..p] + [first] + (rest + s[p + 1 + |rest|..]);
    assert Splice(s, p, [other] + rest) == s[..p] + [other] + (rest + s[p + 1 + |rest|..]);
  }

  // ---------------------------------------------------------------- the info

  datatype Info = NoInfo | Info(flags: Byte, length: Word)

  /** The info at the end of these bytes, and where it begins; the lowest flag says that there is a length. */
  function ReadInfo(s: seq<Byte>): (r: (Info, nat))
    ensures r.1 <= |s|
  {
    if s == [] then (NoInfo, 0)
    else
      var p, flags := |s| - 1, s[|s| - 1];
      if flags % 2 == 1 then var (length, begin) := ReadVlq(s, p, 0); (Info(flags, length), begin)
      else (Info(flags, 0), p)
  }

  /** The info is there: a byte of flags, and in front of it a whole number if they announce one. */
  predicate Complete(s: seq<Byte>) {
    s != [] && (s[|s| - 1] % 2 == 1 ==> Ends(s, |s| - 1))
  }

  /** What the parser stores is what is read, and where it begins. */
  lemma {:induction false} InfoReadsBack(code: seq<Byte>, length: Word)
    ensures ReadInfo(code + Encoded(length) + [1]) == (Info(1, length), |code|)
  {
    var s := code + Encoded(length) + [1];
    assert s[|code|..|code| + |Encoded(length)|] == Encoded(length);
    VlqReadsBack(s, |code|, length);
  }
}
