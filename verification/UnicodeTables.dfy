/** The lower-case tables of tools/gen-unicode.py: a case mapping is taken apart into ranges, pair ranges, pairs
    and single conversions, and each step deletes what it has put into a table. */
module UnicodeTables {

  /** Code points to sequences of code points. */
  type CaseMap = map<int, seq<int>>

  const CODE_POINTS := 0x11_0000

  /** One mapping, as a table stands for it. */
  datatype Entry = Entry(key: int, value: seq<int>)

  predicate GoodMap(m: CaseMap) {
    forall k | k in m :: 0 <= k < CODE_POINTS && m[k] != []
  }

  // ---------------------------------------------------------------- taking a map apart

  function Keys(entries: seq<Entry>): set<int> {
    set e | e in entries :: e.key
  }

  predicate Distinct(entries: seq<Entry>) {
    forall i, j | 0 <= i < j < |entries| :: entries[i].key != entries[j].key
  }

  predicate AllFrom(entries: seq<Entry>, m: CaseMap) {
    forall e | e in entries :: e.key in m && m[e.key] == e.value
  }

  /** The map is the disjoint union of the entries, each there once, and the rest. */
  predicate Splits(m: CaseMap, entries: seq<Entry>, rest: CaseMap) {
    Distinct(entries) && AllFrom(entries, m) && rest == m - Keys(entries)
  }

  /** What a table decodes to. */
  function Decoded(entries: seq<Entry>): CaseMap {
    if entries == [] then map[] else Decoded(entries[..|entries| - 1])[entries[|entries| - 1].key := entries[|entries| - 1].value]
  }

  lemma KeysAppend(most: seq<Entry>, last: Entry)
    ensures Keys(most + [last]) == Keys(most) + {last.key}
  {
    KeysConcat(most, [last]);
    assert Keys([last]) == {last.key};
  }

  /** Decoding has a key for every entry, and a value of the map for it. */
  lemma {:induction false} DecodedIs(entries: seq<Entry>, m: CaseMap)
    requires AllFrom(entries, m)
    ensures Decoded(entries).Keys == Keys(entries)
    ensures forall k | k in Decoded(entries) :: k in m && Decoded(entries)[k] == m[k]
  {
    if entries != [] {
      var most, last := entries[..|entries| - 1], entries[|entries| - 1];
      assert entries == most + [last];
      assert last in entries && forall e | e in most :: e in entries;
      DecodedIs(most, m);
      KeysAppend(most, last);
    }
  }

  lemma {:induction false} DistinctSize(entries: seq<Entry>)
    requires Distinct(entries)
    ensures |Keys(entries)| == |entries|
  {
    if entries != [] {
      var most, last := entries[..|entries| - 1], entries[|entries| - 1];
      assert entries == most + [last];
      DistinctSize(most);
      KeysAppend(most, last);
      LastIsNew(most, last);
    }
  }

  lemma LastIsNew(most: seq<Entry>, last: Entry)
    requires Distinct(most + [last])
    ensures last.key !in Keys(most)
  {
    forall e | e in most
      ensures e.key != last.key
    {
      var i :| 0 <= i < |most| && most[i] == e;
      assert (most + [last])[i].key != (most + [last])[|most|].key;
    }
  }

  /** Nothing is lost and nothing is there twice: decoding the table and adding the rest gives the map back. */
  lemma {:induction false} SplitsDecodes(m: CaseMap, entries: seq<Entry>, rest: CaseMap)
    requires Splits(m, entries, rest)
    ensures Decoded(entries).Keys !! rest.Keys && Decoded(entries) + rest == m
    ensures |Decoded(entries).Keys| == |entries|
  {
    DecodedIs(entries, m);
    DistinctSize(entries);
    KeysFrom(entries, m);
    hide Decoded, Distinct, Keys, AllFrom;
    UnionBack(m, Decoded(entries));
  }

  lemma UnionBack(m: CaseMap, d: CaseMap)
    requires d.Keys <= m.Keys && forall k | k in d :: d[k] == m[k]
    ensures d + (m - d.Keys) == m && d.Keys !! (m - d.Keys).Keys
  {
    var both := d + (m - d.Keys);
    assert both.Keys == m.Keys;
    assert forall k | k in m :: both[k] == m[k];
  }

  lemma KeysFrom(entries: seq<Entry>, m: CaseMap)
    requires AllFrom(entries, m)
    ensures Keys(entries) <= m.Keys
  {
  }

  lemma KeysConcat(a: seq<Entry>, b: seq<Entry>)
    ensures Keys(a + b) == Keys(a) + Keys(b)
  {
    assert forall e | e in a :: e in a + b;
    assert forall e | e in b :: e in a + b;
  }

  /** One step after another. */
  lemma SplitsThen(m: CaseMap, a: seq<Entry>, r1: CaseMap, b: seq<Entry>, r2: CaseMap)
    requires Splits(m, a, r1) && Splits(r1, b, r2)
    ensures Splits(m, a + b, r2)
  {
    KeysConcat(a, b);
    forall i, j | 0 <= i < j < |a + b|
      ensures (a + b)[i].key != (a + b)[j].key
    {
      if i < |a| <= j {
        assert a[i] in a && b[j - |a|] in b;
        assert b[j - |a|].key in r1 && a[i].key in Keys(a);
      }
    }
  }

  // ---------------------------------------------------------------- conversions

  /** `is_bidirectional_conversion` */
  predicate Bidirectional(k: int, lower: CaseMap, upper: CaseMap) {
    && k in lower && !(|lower[k]| > 1) && lower[k] != []
    && lower[k][0] in upper && !(|upper[lower[k][0]]| > 1) && upper[lower[k][0]] != []
    && upper[lower[k][0]][0] == k
  }

  /** Which keys may be in a range: those converted in both directions, or, without an upper map, all keys with
      a single character for a value. */
  predicate Eligible(k: int, lower: CaseMap, upper: CaseMap, twoWay: bool) {
    if twoWay then Bidirectional(k, lower, upper) else k in lower && |lower[k]| == 1
  }

  /** `calculate_conversion_distance`, of an eligible key. */
  function Distance(k: int, lower: CaseMap): int
    requires k in lower && lower[k] != []
  {
    lower[k][0] - k
  }

  /** A key that continues a range with its predecessor. */
  predicate Linked(k: int, lower: CaseMap, upper: CaseMap, twoWay: bool) {
    && Eligible(k, lower, upper, twoWay) && Eligible(k - 1, lower, upper, twoWay)
    && Distance(k, lower) == Distance(k - 1, lower)
  }

  // ---------------------------------------------------------------- the content of range tables

  /** A range: consecutive keys with consecutive values. */
  function RangeEntries(start: int, mapped: int, n: nat): (r: seq<Entry>)
    ensures |r| == n
  {
    seq(n, i => Entry(start + i, [mapped + i]))
  }

  /** `ranges` holds the start points and their values, `lengths` the lengths. */
  function Ranges(ranges: seq<int>, lengths: seq<nat>): seq<Entry>
    requires |ranges| == 2 * |lengths|
  {
    if lengths == [] then []
    else
      var n := |lengths| - 1;
      Ranges(ranges[..2 * n], lengths[..n]) + RangeEntries(ranges[2 * n], ranges[2 * n + 1], lengths[n])
  }

  lemma {:induction false} RangesNew(ranges: seq<int>, lengths: seq<nat>, start: int, mapped: int, n: nat)
    requires |ranges| == 2 * |lengths|
    ensures Ranges(ranges + [start, mapped], lengths + [n]) == Ranges(ranges, lengths) + RangeEntries(start, mapped, n)
  {
    assert (ranges + [start, mapped])[..2 * |lengths|] == ranges && (lengths + [n])[..|lengths|] == lengths;
  }

  lemma {:induction false} RangesLonger(ranges: seq<int>, lengths: seq<nat>)
    requires |ranges| == 2 * |lengths| && lengths != []
    ensures var n := |lengths| - 1;
            Ranges(ranges, lengths[n := lengths[n] + 1])
            == Ranges(ranges, lengths) + [Entry(ranges[2 * n] + lengths[n], [ranges[2 * n + 1] + lengths[n]])]
  {
    var n := |lengths| - 1;
    var longer := lengths[n := lengths[n] + 1];
    assert longer[..n] == lengths[..n];
    var start, mapped := ranges[2 * n], ranges[2 * n + 1];
    var last := [Entry(start + lengths[n], [mapped + lengths[n]])];
    assert RangeEntries(start, mapped, lengths[n] + 1) == RangeEntries(start, mapped, lengths[n]) + last;
    var before := Ranges(ranges[..2 * n], lengths[..n]);
    assert before + (RangeEntries(start, mapped, lengths[n]) + last) == (before + RangeEntries(start, mapped, lengths[n])) + last;
  }

  /** The first ranges hold the first entries. */
  lemma {:induction false} RangesPrefix(ranges: seq<int>, lengths: seq<nat>, i: nat)
    requires |ranges| == 2 * |lengths| && i <= |lengths|
    ensures Ranges(ranges[..2 * i], lengths[..i]) <= Ranges(ranges, lengths)
    decreases |lengths| - i
  {
    if i == |lengths| {
      assert ranges[..2 * i] == ranges && lengths[..i] == lengths;
    } else {
      RangesPrefix(ranges, lengths, i + 1);
      assert ranges[..2 * (i + 1)][..2 * i] == ranges[..2 * i] && lengths[..i + 1][..i] == lengths[..i];
    }
  }

  /** `start_points` and `lengths` of pair ranges: every second key, each converted to its successor. */
  function PairRangeEntries(start: int, length: nat): seq<Entry> {
    seq((length + 1) / 2, i => Entry(start + 2 * i, [start + 2 * i + 1]))
  }

  function PairRanges(starts: seq<int>, lengths: seq<nat>): seq<Entry>
    requires |starts| == |lengths|
  {
    if lengths == [] then []
    else
      var n := |lengths| - 1;
      PairRanges(starts[..n], lengths[..n]) + PairRangeEntries(starts[n], lengths[n])
  }

  lemma {:induction false} PairRangesNew(starts: seq<int>, lengths: seq<nat>, start: int)
    requires |starts| == |lengths|
    ensures PairRanges(starts + [start], lengths + [2]) == PairRanges(starts, lengths) + [Entry(start, [start + 1])]
  {
    assert (starts + [start])[..|starts|] == starts && (lengths + [2])[..|lengths|] == lengths;
    assert PairRangeEntries(start, 2) == [Entry(start, [start + 1])];
  }

  lemma {:induction false} PairRangesLonger(starts: seq<int>, lengths: seq<nat>)
    requires |starts| == |lengths| && lengths != [] && lengths[|lengths| - 1] % 2 == 0
    ensures var n := |lengths| - 1; var k := starts[n] + lengths[n];
            PairRanges(starts, lengths[n := lengths[n] + 2]) == PairRanges(starts, lengths) + [Entry(k, [k + 1])]
  {
    var n := |lengths| - 1;
    var longer, k := lengths[n := lengths[n] + 2], starts[n] + lengths[n];
    assert longer[..n] == lengths[..n];
    assert PairRangeEntries(starts[n], lengths[n] + 2) == PairRangeEntries(starts[n], lengths[n]) + [Entry(k, [k + 1])];
    var before := PairRanges(starts[..n], lengths[..n]);
    assert before + (PairRangeEntries(starts[n], lengths[n]) + [Entry(k, [k + 1])])
        == (before + PairRangeEntries(starts[n], lengths[n])) + [Entry(k, [k + 1])];
  }

  lemma {:induction false} PairRangesPrefix(starts: seq<int>, lengths: seq<nat>, i: nat)
    requires |starts| == |lengths| && i <= |lengths|
    ensures PairRanges(starts[..i], lengths[..i]) <= PairRanges(starts, lengths)
    decreases |lengths| - i
  {
    if i == |lengths| {
      assert starts[..i] == starts && lengths[..i] == lengths;
    } else {
      PairRangesPrefix(starts, lengths, i + 1);
      assert starts[..i + 1][..i] == starts[..i] && lengths[..i + 1][..i] == lengths[..i];
    }
  }

  /** Tables of keys, each followed by n values: `character_pairs` with n = 1, and the parts of the conversions. */
  function Records(table: seq<int>, n: nat): seq<Entry>
    decreases |table|
  {
    if |table| < n + 1 then []
    else
      var p := |table| - n - 1;
      Records(table[..p], n) + [Entry(table[p], table[p + 1..])]
  }

  lemma {:induction false} RecordsNew(table: seq<int>, k: int, values: seq<int>)
    ensures Records(table + ([k] + values), |values|) == Records(table, |values|) + [Entry(k, values)]
  {
    var t := table + ([k] + values);
    assert t[..|table|] == table && t[|table| + 1..] == values && t[|table|] == k;
  }

  /** `conversions` with its counters: so many one-to-one, one-to-two and one-to-three conversions. */
  function Conversions(table: seq<int>, counters: seq<nat>): seq<Entry>
    requires |counters| == 3 && 2 * counters[0] + 3 * counters[1] <= |table|
  {
    var p := 2 * counters[0];
    var q := p + 3 * counters[1];
    Records(table[..p], 1) + Records(table[p..q], 2) + Records(table[q..], 3)
  }
}
