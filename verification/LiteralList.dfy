/** The literal list of a snapshot: printed in list format by jerry-core/api/jerry-snapshot.c, parsed again by
    jerry-main/main-snapshot.c. */
module LiteralList {
  import opened Words
  import opened Bytes
  import LiteralSort

  type Literal = LiteralSort.Literal

  const SPACE: Byte := 32
  const NEWLINE: Byte := 10
  const ZERO: Byte := 48
  const PLUS: Byte := 43
  const MINUS: Byte := 45

  // ---------------------------------------------------------------- the text of a list

  /** Decimal digits. */
  function Digits(n: nat): (r: seq<Byte>)
    ensures |r| >= 1 && forall i | 0 <= i < |r| :: IsDigit(r[i])
  {
    if n < 10 then [ZERO + n] else Digits(n / 10) + [ZERO + n % 10]
  }

  predicate IsDigit(b: Byte) {
    ZERO <= b <= ZERO + 9
  }

  predicate IsSpace(b: Byte) {
    b == SPACE || 9 <= b <= 13
  }

  /** A literal behind its size. */
  function Line(l: Literal): seq<Byte> {
    Digits(|l|) + [SPACE] + l + [NEWLINE]
  }

  function Text(literals: seq<Literal>): seq<Byte> {
    if literals == [] then [] else Line(literals[0]) + Text(literals[1..])
  }

  lemma {:induction false} TextFirst(literals: seq<Literal>)
    ensures literals == [] ==> Text(literals) == []
    ensures literals != [] ==> Text(literals) == Line(literals[0]) + Text(literals[1..])
  {
  }

  lemma {:induction false} TextAppend(literals: seq<Literal>, l: Literal)
    ensures Text(literals + [l]) == Text(literals) + Line(l)
  {
    if literals == [] {
      assert literals + [l] == [l] && [l][1..] == [];
    } else {
      assert (literals + [l])[1..] == literals[1..] + [l] && (literals + [l])[0] == literals[0];
      TextAppend(literals[1..], l);
      assert Line(literals[0]) + (Text(literals[1..]) + Line(l)) == (Line(literals[0]) + Text(literals[1..])) + Line(l);
    }
  }

  // ---------------------------------------------------------------- printing

  /** The output buffer and the position in it, which is behind the end once something did not fit. */
  class ListWriter {
    const buffer: array<Byte>
    var pos: nat

    constructor (buffer: array<Byte>)
      ensures this.buffer == buffer && pos == 0
    {
      this.buffer := buffer;
      pos := 0;
    }

    /** The buffer holds the text, or the text did not fit and nothing will be written any more. */
    ghost predicate Holds(text: seq<Byte>)
      reads this, buffer
    {
      if |text| <= buffer.Length then pos == |text| && buffer[..pos] == text else pos == buffer.Length + 1
    }

    /** `jerry_append_chars_to_buffer` */
    method AppendChars(chars: seq<Byte>, ghost text: seq<Byte>)
      requires Holds(text)
      modifies this, buffer
      ensures Holds(text + chars)
    {
      if pos > buffer.Length {
        return;
      }
      if pos + |chars| <= buffer.Length {
        ghost var s := buffer[..];
        CopyInto(buffer, pos, chars);
        SpliceAgrees(s, pos, chars);
        assert buffer[..pos + |chars|] == s[..pos] + chars;
        pos := pos + |chars|;
        return;
      }
      pos := buffer.Length + 1;
    }

    /** The list part of `jerry_get_literals_from_snapshot`, from the sorted literals on: the size of the list, or 0
        if it does not fit. */
    method Print(literals: seq<Literal>) returns (size: nat)
      requires pos == 0
      modifies this, buffer
      ensures size == if |Text(literals)| <= buffer.Length then |Text(literals)| else 0
      ensures |Text(literals)| <= buffer.Length ==> buffer[..size] == Text(literals)
    {
      hide Digits, Text, Holds;
      TextFirst([]);
      Nothing();
      for i := 0 to |literals|
        invariant Holds(Text(literals[..i]))
      {
        ghost var text, l := Text(literals[..i]), literals[i];
        AppendChars(Digits(|literals[i]|), text);
        AppendChars([SPACE], text + Digits(|l|));
        AppendChars(literals[i], text + Digits(|l|) + [SPACE]);
        AppendChars([NEWLINE], text + Digits(|l|) + [SPACE] + l);
        TextAppend(literals[..i], l);
        assert literals[..i + 1] == literals[..i] + [l];
        assert text + Digits(|l|) + [SPACE] + l + [NEWLINE] == text + Line(l);
      }
      assert literals[..|literals|] == literals;
      Result(Text(literals));
      size := if pos <= buffer.Length then pos else 0;
    }

    lemma Nothing()
      requires pos == 0
      ensures Holds([])
    {
    }

    lemma Result(text: seq<Byte>)
      requires Holds(text)
      ensures pos <= buffer.Length <==> |text| <= buffer.Length
      ensures pos <= buffer.Length ==> pos == |text| && buffer[..pos] == text
    {
    }
  }

  // ---------------------------------------------------------------- strtol

  function SkipSpace(m: seq<Byte>, p: nat): (q: nat)
    ensures p <= q
    decreases |m| - p
  {
    if p < |m| && IsSpace(m[p]) then SkipSpace(m, p + 1) else p
  }

  /** The value of the digits from p on, behind the value so far, and the position behind them. */
  function ReadDigits(m: seq<Byte>, p: nat, value: nat): (r: (nat, nat))
    ensures p <= r.1
    decreases |m| - p
  {
    if p < |m| && IsDigit(m[p]) then ReadDigits(m, p + 1, 10 * value + (m[p] - ZERO)) else (value, p)
  }

  /** `strtol (m + p, &end, 10)`: without digits the value is 0 and the end is p. */
  function Strtol(m: seq<Byte>, p: nat): (r: (int, nat))
    ensures p <= r.1
  {
    var q := SkipSpace(m, p);
    var start := if q < |m| && (m[q] == PLUS || m[q] == MINUS) then q + 1 else q;
    var (value, end) := ReadDigits(m, start, 0);
    if end == start then (0, p) else (if q < start && m[q] == MINUS then -(value as int) else value as int, end)
  }

  // ---------------------------------------------------------------- parsing

  /** A registered string: where it starts and its length. */
  datatype Item = Item(start: nat, length: Word)

  /** The loop of lines 314-328, from p on: the list is the first `size` bytes of the memory m. */
  function Parse(m: seq<Byte>, p: nat, size: nat): seq<Item>
    decreases size - p
  {
    var (value, end) := Strtol(m, p);
    var length := Wrap(value);
    (if length > 0 then [Item(end + 1, length)] else [])
    + (if end + length + 1 < size then Parse(m, end + length + 1, size) else [])
  }

  /** The item of one turn, and where the next one starts. */
  function Found(m: seq<Byte>, p: nat): seq<Item> {
    var (value, end) := Strtol(m, p);
    if Wrap(value) > 0 then [Item(end + 1, Wrap(value))] else []
  }

  function NextTurn(m: seq<Byte>, p: nat): nat {
    var (value, end) := Strtol(m, p);
    end + Wrap(value) + 1
  }

  lemma {:induction false} ParseTurn(m: seq<Byte>, p: nat, size: nat)
    ensures Parse(m, p, size) == Found(m, p) + (if NextTurn(m, p) < size then Parse(m, NextTurn(m, p), size) else [])
    ensures NextTurn(m, p) > p
  {
    hide SkipSpace, ReadDigits, Strtol, Wrap;
  }

  /** A turn moves one item from what is still to be parsed to what has been. */
  lemma {:induction false} TurnTaken(m: seq<Byte>, p: nat, size: nat, before: seq<Item>)
    ensures NextTurn(m, p) > p
    ensures before + Parse(m, p, size)
         == before + Found(m, p) + (if NextTurn(m, p) < size then Parse(m, NextTurn(m, p), size) else [])
  {
    hide Parse, Found, NextTurn;
    ParseTurn(m, p, size);
  }

  method ParseList(m: seq<Byte>, size: nat) returns (items: seq<Item>)
    requires size > 0
    ensures items == Parse(m, 0, size)
  {
    hide Parse, Strtol, Wrap;
    var p := 0;
    items := [];
    while true
      invariant items + Parse(m, p, size) == Parse(m, 0, size)
      decreases size - p
    {
      TurnTaken(m, p, size, items);
      ghost var before, found, next := items, Found(m, p), NextTurn(m, p);
      var (value, end) := Strtol(m, p);
      var length := Wrap(value);
      if length > 0 {
        items := items + [Item(end + 1, length)];
      }
      assert items == before + found;
      p := end + length + 1;
      if !(p < size) {
        break;
      }
    }
  }

  // ---------------------------------------------------------------- round trip

  lemma {:induction false} LastDigit(m: seq<Byte>, p: nat, n: nat)
    requires n >= 10 && p + |Digits(n)| <= |m| && m[p..p + |Digits(n)|] == Digits(n)
    ensures var most := Digits(n / 10); var q := p + |most|;
            |Digits(n)| == |most| + 1 && m[p..q] == most && m[q] == ZERO + n % 10
  {
    var d, most := Digits(n), Digits(n / 10);
    assert m[p..p + |most|] == m[p..p + |d|][..|most|];
    assert m[p + |most|] == m[p..p + |d|][|most|];
  }

  lemma {:induction false} DigitRead(m: seq<Byte>, q: nat, value: nat, digit: nat)
    requires q < |m| && digit < 10 && m[q] == ZERO + digit
    ensures ReadDigits(m, q, value) == ReadDigits(m, q + 1, 10 * value + digit)
  {
  }

  lemma {:induction false} DigitsRead(m: seq<Byte>, p: nat, n: nat)
    requires p + |Digits(n)| <= |m| && m[p..p + |Digits(n)|] == Digits(n)
    ensures ReadDigits(m, p, 0) == ReadDigits(m, p + |Digits(n)|, n)
    decreases n
  {
    hide ReadDigits;
    if n < 10 {
      assert m[p] == m[p..p + 1][0] == ZERO + n;
      DigitRead(m, p, 0, n);
    } else {
      LastDigit(m, p, n);
      DigitsRead(m, p, n / 10);
      DigitRead(m, p + |Digits(n / 10)|, n / 10, n % 10);
    }
  }

  /** A size is read as it was printed, behind at most one newline. */
  lemma {:induction false} SizeRead(m: seq<Byte>, p: nat, q: nat, n: nat)
    requires p == q || (q == p + 1 && p < |m| && m[p] == NEWLINE)
    requires q + |Digits(n)| < |m| && m[q..q + |Digits(n)|] == Digits(n) && m[q + |Digits(n)|] == SPACE
    ensures Strtol(m, p) == (n, q + |Digits(n)|)
  {
    assert m[q] == m[q..q + |Digits(n)|][0] && IsDigit(m[q]);
    assert SkipSpace(m, q) == q && SkipSpace(m, p) == q;
    DigitsRead(m, q, n);
  }

  /** Literals whose size fits in 32 bits. */
  predicate Fit(literals: seq<Literal>) {
    forall l | l in literals :: |l| < 0x1_0000_0000
  }

  lemma FitParts(literals: seq<Literal>)
    requires literals != [] && Fit(literals)
    ensures |literals[0]| < 0x1_0000_0000 && Fit(literals[1..])
  {
    assert literals[0] in literals;
  }

  /** The items for the lines that start at q. */
  function Expected(literals: seq<Literal>, q: nat): seq<Item>
    requires Fit(literals)
  {
    if literals == [] then []
    else
      var start := q + |Digits(|literals[0]|)| + 1;
      (if literals[0] == [] then [] else [Item(start, |literals[0]|)]) + Expected(literals[1..], start + |literals[0]| + 1)
  }

  function Nonempty(literals: seq<Literal>): seq<Literal> {
    if literals == [] then []
    else (if literals[0] == [] then [] else [literals[0]]) + Nonempty(literals[1..])
  }

  /** What the items point to. */
  predicate PointTo(m: seq<Byte>, items: seq<Item>, literals: seq<Literal>) {
    && |items| == |literals|
    && forall i | 0 <= i < |items| ::
         items[i].start + items[i].length <= |m| && m[items[i].start..items[i].start + items[i].length] == literals[i]
  }

  lemma TextParts(t: seq<Byte>, a: seq<Byte>, l: Literal, rest: seq<Byte>)
    requires t == a + [SPACE] + l + [NEWLINE] + rest
    ensures var d := |a|;
      && |t| >= d + 2 + |l| && t[0..d] == a && t[d] == SPACE && t[d + 1..d + 1 + |l|] == l
      && t[d + 1 + |l|] == NEWLINE && t[d + 2 + |l|..|t|] == rest
  {
  }

  lemma LineParts(m: seq<Byte>, q: nat, l: Literal, rest: seq<Byte>, size: nat)
    requires q <= size <= |m| && m[q..size] == Line(l) + rest
    ensures var end := Start(q, l) + |l|; LineAt(m, q, l) && end < size && m[end + 1..size] == rest
  {
    hide Digits;
    var t, d := m[q..size], |Digits(|l|)|;
    TextParts(t, Digits(|l|), l, rest);
    SliceOfSlice(m, q, size, 0, d);
    SliceOfSlice(m, q, size, d + 1, d + 1 + |l|);
    SliceOfSlice(m, q, size, d + 2 + |l|, |t|);
    assert m[q + d] == t[d] && m[q + d + 1 + |l|] == t[d + 1 + |l|];
  }

  lemma PointToConcat(m: seq<Byte>, a: seq<Item>, x: seq<Literal>, b: seq<Item>, y: seq<Literal>)
    requires PointTo(m, a, x) && PointTo(m, b, y)
    ensures PointTo(m, a + b, x + y)
  {
  }

  /** The item of a literal that starts at `start`, if it is not empty. */
  function ItemOf(start: nat, l: Literal): seq<Item>
    requires |l| < 0x1_0000_0000
  {
    if l == [] then [] else [Item(start, |l|)]
  }

  function UnlessEmpty(l: Literal): seq<Literal> {
    if l == [] then [] else [l]
  }

  /** Where the literal of a line that starts at q starts. */
  function Start(q: nat, l: Literal): nat {
    q + |Digits(|l|)| + 1
  }

  lemma {:induction false} FirstExpected(literals: seq<Literal>, q: nat)
    requires literals != [] && Fit(literals)
    ensures var l := literals[0];
            && |l| < 0x1_0000_0000 && Fit(literals[1..])
            && Expected(literals, q) == ItemOf(Start(q, l), l) + Expected(literals[1..], Start(q, l) + |l| + 1)
            && Nonempty(literals) == UnlessEmpty(l) + Nonempty(literals[1..])
  {
    hide Digits;
    FitParts(literals);
  }

  /** A line in memory, up to its newline at `end`. */
  predicate LineAt(m: seq<Byte>, q: nat, l: Literal) {
    var start := Start(q, l); var end := start + |l|;
    && end < |m| && m[q..start - 1] == Digits(|l|) && m[start - 1] == SPACE
    && m[start..end] == l && m[end] == NEWLINE
  }

  /** The first line of a list, and the text behind it. */
  lemma {:induction false} FirstLine(m: seq<Byte>, literals: seq<Literal>, q: nat, size: nat)
    requires literals != []
    requires q <= size <= |m| && m[q..size] == Text(literals)
    ensures var l := literals[0]; var end := Start(q, l) + |l|;
            LineAt(m, q, l) && end < size && m[end + 1..size] == Text(literals[1..])
  {
    TextFirst(literals);
    hide Digits, Text, Line;
    LineParts(m, q, literals[0], Text(literals[1..]), size);
  }

  lemma {:induction false} ExpectedPoint(m: seq<Byte>, literals: seq<Literal>, q: nat, size: nat)
    requires Fit(literals)
    requires q <= size <= |m| && m[q..size] == Text(literals)
    ensures PointTo(m, Expected(literals, q), Nonempty(literals))
    decreases |literals|
  {
    if literals == [] {
      return;
    }
    hide Digits, Text, Expected, Nonempty, PointTo, Fit, LineAt, Start, ItemOf, UnlessEmpty;
    var l, rest := literals[0], literals[1..];
    FirstLine(m, literals, q, size);
    FirstExpected(literals, q);
    var start := Start(q, l);
    ExpectedPoint(m, rest, start + |l| + 1, size);
    OnePoint(m, q, l);
    PointToConcat(m, ItemOf(start, l), UnlessEmpty(l), Expected(rest, start + |l| + 1), Nonempty(rest));
  }

  lemma OnePoint(m: seq<Byte>, q: nat, l: Literal)
    requires LineAt(m, q, l) && |l| < 0x1_0000_0000
    ensures PointTo(m, ItemOf(Start(q, l), l), UnlessEmpty(l))
  {
    hide Digits;
  }

  /** Parsing from the start of a line, or from the newline before it, finds the line and goes on at its newline. */
  lemma {:induction false} LineParsed(m: seq<Byte>, l: Literal, p: nat, q: nat, size: nat)
    requires LineAt(m, q, l) && |l| < 0x1_0000_0000 && Start(q, l) + |l| < size
    requires p == q || (q == p + 1 && p < |m| && m[p] == NEWLINE)
    ensures Parse(m, p, size) == ItemOf(Start(q, l), l) + Parse(m, Start(q, l) + |l|, size)
  {
    hide Digits, Parse, Found, NextTurn, LineAt, Start, ItemOf, Wrap;
    LineTurn(m, p, q, l);
    ParseTurn(m, p, size);
  }

  /** Parsing finds the lines and then looks once more at the last newline. */
  lemma {:induction false} LinesParsed(m: seq<Byte>, literals: seq<Literal>, p: nat, q: nat, size: nat)
    requires literals != [] && Fit(literals)
    requires q <= size <= |m| && m[q..size] == Text(literals)
    requires p == q || (q == p + 1 && m[p] == NEWLINE)
    ensures size >= 1 && Parse(m, p, size) == Expected(literals, q) + Parse(m, size - 1, size)
    decreases |literals|
  {
    hide Digits, Text, Expected, Nonempty, Parse, Fit, LineAt, Start, ItemOf, UnlessEmpty;
    var l, rest := literals[0], literals[1..];
    FirstLine(m, literals, q, size);
    FirstExpected(literals, q);
    LineParsed(m, l, p, q, size);
    LineEnd(m, q, l);
    var end := Start(q, l) + |l|;
    if rest == [] {
      NoneLeft(m, end + 1, size);
    } else {
      TextLonger(rest);
      LinesParsed(m, rest, end, end + 1, size);
    }
    Regroup(ItemOf(Start(q, l), l), Expected(rest, end + 1), Parse(m, size - 1, size));
  }

  lemma {:induction false} NoneLeft(m: seq<Byte>, q: nat, size: nat)
    requires q <= size <= |m| && m[q..size] == Text([])
    ensures q == size && Expected([], q) == []
  {
    assert |m[q..size]| == 0;
  }

  lemma Regroup(a: seq<Item>, b: seq<Item>, c: seq<Item>)
    ensures a + (b + c) == (a + b) + c && [] + c == c
  {
  }

  lemma LineEnd(m: seq<Byte>, q: nat, l: Literal)
    requires LineAt(m, q, l)
    ensures Start(q, l) + |l| < |m| && m[Start(q, l) + |l|] == NEWLINE
  {
  }

  lemma {:induction false} TextLonger(literals: seq<Literal>)
    requires literals != []
    ensures |Text(literals)| > 0
  {
    TextFirst(literals);
  }

  /** The turn that reads a line ends at its newline. */
  lemma LineTurn(m: seq<Byte>, p: nat, q: nat, l: Literal)
    requires LineAt(m, q, l) && |l| < 0x1_0000_0000
    requires p == q || (q == p + 1 && p < |m| && m[p] == NEWLINE)
    ensures Found(m, p) == ItemOf(Start(q, l), l) && NextTurn(m, p) == Start(q, l) + |l|
  {
    hide Digits, Strtol;
    SizeRead(m, p, q, |l|);
    WrapNoop(|l|);
  }

  /** The list parses back to exactly the printed literals in order, whatever bytes they hold, except for empty ones;
      that is so if and only if what lies in memory behind the list does not read as a number other than 0. */
  lemma {:induction false} ListParsesBack(m: seq<Byte>, literals: seq<Literal>, size: nat)
    requires literals != [] && Fit(literals)
    requires size <= |m| && m[..size] == Text(literals)
    ensures size > 0
    ensures PointTo(m, Parse(m, 0, size), Nonempty(literals)) <==> Wrap(Strtol(m, size - 1).0) == 0
  {
    assert m[0..size] == Text(literals);
    LinesParsed(m, literals, 0, 0, size);
    ExpectedPoint(m, literals, 0, size);
    ParseTurn(m, size - 1, size);
    hide Parse, Strtol, Expected;
    assert Parse(m, size - 1, size) == Found(m, size - 1);
    assert Expected(literals, 0) + [] == Expected(literals, 0);
  }

  /** In particular the list may be followed by zero bytes, or by anything that is no number. */
  lemma EndOfList(m: seq<Byte>, size: nat)
    requires 0 < size < |m| && m[size - 1] == NEWLINE && !IsSpace(m[size]) && !IsDigit(m[size]) && m[size] != PLUS && m[size] != MINUS
    ensures Strtol(m, size - 1).0 == 0
  {
    assert SkipSpace(m, size) == size;
  }
}
