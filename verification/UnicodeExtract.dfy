/** The extract_* functions of tools/gen-unicode.py, deleting from the two case maps as they go. */
module UnicodeExtract {
  import opened UnicodeTables
  import opened Words

  // ---------------------------------------------------------------- sorted keys

  predicate SortedKeysOf(keys: seq<int>, m: CaseMap) {
    && (forall i, j | 0 <= i < j < |keys| :: keys[i] < keys[j])
    && (forall k | k in keys :: k in m) && (forall k | k in m :: k in keys)
  }

  /** `sorted (letter_case.keys ())`, for keys that are code points. */
  method SortedKeys(m: CaseMap) returns (keys: seq<int>)
    requires GoodMap(m)
    ensures SortedKeysOf(keys, m)
  {
    keys := [];
    for k := 0 to CODE_POINTS
      invariant forall i, j | 0 <= i < j < |keys| :: keys[i] < keys[j]
      invariant forall i | 0 <= i < |keys| :: keys[i] in m && keys[i] < k
      invariant forall x | x in m && x < k :: x in keys
    {
      if k in m {
        keys := keys + [k];
      }
    }
  }

  /** A key whose predecessor is a key follows it. */
  lemma PredecessorBefore(keys: seq<int>, m: CaseMap, i: nat)
    requires SortedKeysOf(keys, m) && i < |keys| && keys[i] - 1 in m
    ensures i > 0 && keys[i - 1] == keys[i] - 1
  {
    var j :| 0 <= j < |keys| && keys[j] == keys[i] - 1;
    assert j < i && keys[j] <= keys[i - 1];
  }

  // ---------------------------------------------------------------- images of entries

  function Images(entries: seq<Entry>): set<int> {
    set e | e in entries && e.value != [] :: e.value[0]
  }

  /** Entries of a bidirectional map: single values that the upper map converts back. */
  predicate Inverted(entries: seq<Entry>, upper: CaseMap) {
    forall e | e in entries :: |e.value| == 1 && e.value[0] in upper && upper[e.value[0]] == [e.key]
  }

  lemma NextIsNew(entries: seq<Entry>, j: nat)
    requires Distinct(entries) && j < |entries|
    ensures entries[j].key !in Keys(entries[..j])
    ensures Keys(entries[..j + 1]) == Keys(entries[..j]) + {entries[j].key}
  {
    assert entries[..j + 1] == entries[..j] + [entries[j]];
    KeysAppend(entries[..j], entries[j]);
  }

  lemma NextImageIsNew(entries: seq<Entry>, upper: CaseMap, j: nat)
    requires Distinct(entries) && Inverted(entries, upper) && j < |entries|
    ensures entries[j].value[0] in upper && entries[j].value[0] !in Images(entries[..j])
    ensures Images(entries[..j + 1]) == Images(entries[..j]) + {entries[j].value[0]}
  {
    NextIsNew(entries, j);
    var e := entries[j];
    assert e in entries;
    forall d | d in entries[..j]
      ensures d.value[0] != e.value[0]
    {
      assert d in entries && d.key in Keys(entries[..j]);
      assert upper[d.value[0]] == [d.key] && upper[e.value[0]] == [e.key];
    }
    assert entries[..j + 1] == entries[..j] + [e];
    assert forall d | d in entries[..j + 1] :: d in entries[..j] || d == e;
    assert forall d | d in entries[..j] :: d in entries[..j + 1];
    assert e in entries[..j + 1];
  }

  lemma EntriesInverted(entries: seq<Entry>, lower: CaseMap, upper: CaseMap)
    requires AllFrom(entries, lower) && forall e | e in entries :: Bidirectional(e.key, lower, upper)
    ensures Inverted(entries, upper)
  {
    forall e | e in entries
      ensures |e.value| == 1 && e.value[0] in upper && upper[e.value[0]] == [e.key]
    {
      assert Bidirectional(e.key, lower, upper);
      assert upper[e.value[0]] == [upper[e.value[0]][0]];
    }
  }

  // ---------------------------------------------------------------- scanning for ranges

  /** State of the scan after the first i keys. */
  ghost predicate Scanned(lower: CaseMap, upper: CaseMap, twoWay: bool, keys: seq<int>, i: nat, ranges: seq<int>,
                          lengths: seq<nat>, inRange: bool)
  {
    && |ranges| == 2 * |lengths| && i <= |keys|
    && var e := Ranges(ranges, lengths);
       && Distinct(e) && AllFrom(e, lower)
       && (forall x | x in e :: Eligible(x.key, lower, upper, twoWay) && exists j | 0 <= j < i :: keys[j] == x.key)
       && (forall j | 0 <= j < i && Linked(keys[j], lower, upper, twoWay) :: keys[j] in Keys(e) && keys[j] - 1 in Keys(e))
       && (!inRange && i > 0 ==> keys[i - 1] !in Keys(e))
       && (inRange ==>
             && i > 0 && lengths != [] && keys[i - 1] in Keys(e) && Eligible(keys[i - 1], lower, upper, twoWay)
             && ranges[|ranges| - 2] + lengths[|lengths| - 1] == keys[i - 1] + 1
             && ranges[|ranges| - 1] + lengths[|lengths| - 1] == lower[keys[i - 1]][0] + 1)
  }

  /** A key behind all visited ones is not in a range yet. */
  lemma {:induction false} BehindAll(lower: CaseMap, upper: CaseMap, twoWay: bool, keys: seq<int>, i: nat, ranges: seq<int>,
                  lengths: seq<nat>, inRange: bool)
    requires Scanned(lower, upper, twoWay, keys, i, ranges, lengths, inRange) && SortedKeysOf(keys, lower) && i < |keys|
    ensures keys[i] !in Keys(Ranges(ranges, lengths))
  {
  }

  lemma ScanSkips(lower: CaseMap, upper: CaseMap, twoWay: bool, keys: seq<int>, i: nat, ranges: seq<int>,
                  lengths: seq<nat>, inRange: bool)
    requires Scanned(lower, upper, twoWay, keys, i, ranges, lengths, inRange) && SortedKeysOf(keys, lower) && i < |keys|
    requires !Linked(keys[i], lower, upper, twoWay)
    ensures Scanned(lower, upper, twoWay, keys, i + 1, ranges, lengths, false)
  {
    BehindAll(lower, upper, twoWay, keys, i, ranges, lengths, inRange);
  }

  /** Adding entries with new keys. */
  lemma EntriesGrow(e: seq<Entry>, x: Entry, m: CaseMap)
    requires Distinct(e) && AllFrom(e, m) && x.key !in Keys(e) && x.key in m && m[x.key] == x.value
    ensures Distinct(e + [x]) && AllFrom(e + [x], m) && Keys(e + [x]) == Keys(e) + {x.key}
  {
    KeysAppend(e, x);
    forall i, j | 0 <= i < j < |e + [x]|
      ensures (e + [x])[i].key != (e + [x])[j].key
    {
      if j == |e| {
        assert e[i] in e;
      }
    }
  }

  lemma SingleValue(k: int, lower: CaseMap, upper: CaseMap, twoWay: bool)
    requires Eligible(k, lower, upper, twoWay)
    ensures k in lower && lower[k] == [lower[k][0]]
  {
  }

  lemma ScanExtends(lower: CaseMap, upper: CaseMap, twoWay: bool, keys: seq<int>, i: nat, ranges: seq<int>, lengths: seq<nat>)
    requires Scanned(lower, upper, twoWay, keys, i, ranges, lengths, true) && SortedKeysOf(keys, lower) && i < |keys|
    requires Linked(keys[i], lower, upper, twoWay)
    ensures var n := |lengths| - 1; Scanned(lower, upper, twoWay, keys, i + 1, ranges, lengths[n := lengths[n] + 1], true)
  {
    hide Distinct, AllFrom, Ranges, Eligible;
    var k, n, e := keys[i], |lengths| - 1, Ranges(ranges, lengths);
    SingleValue(k, lower, upper, twoWay);
    SingleValue(k - 1, lower, upper, twoWay);
    PredecessorBefore(keys, lower, i);
    BehindAll(lower, upper, twoWay, keys, i, ranges, lengths, true);
    RangesLonger(ranges, lengths);
    EntriesGrow(e, Entry(k, lower[k]), lower);
  }

  lemma ScanStarts(lower: CaseMap, upper: CaseMap, twoWay: bool, keys: seq<int>, i: nat, ranges: seq<int>, lengths: seq<nat>)
    requires Scanned(lower, upper, twoWay, keys, i, ranges, lengths, false) && SortedKeysOf(keys, lower) && i < |keys|
    requires Linked(keys[i], lower, upper, twoWay)
    ensures keys[i] - 1 in lower && lower[keys[i] - 1] != []
    ensures Scanned(lower, upper, twoWay, keys, i + 1, ranges + [keys[i] - 1, lower[keys[i] - 1][0]], lengths + [2], true)
  {
    hide Distinct, AllFrom, Ranges, Eligible;
    var k, e := keys[i], Ranges(ranges, lengths);
    SingleValue(k, lower, upper, twoWay);
    SingleValue(k - 1, lower, upper, twoWay);
    PredecessorBefore(keys, lower, i);
    BehindAll(lower, upper, twoWay, keys, i, ranges, lengths, false);
    var v := lower[k - 1][0];
    RangesNew(ranges, lengths, k - 1, v, 2);
    var x, y := Entry(k - 1, lower[k - 1]), Entry(k, lower[k]);
    assert RangeEntries(k - 1, v, 2) == [x, y];
    EntriesGrow(e, x, lower);
    EntriesGrow(e + [x], y, lower);
    assert (e + [x]) + [y] == e + [x, y];
  }

  // ---------------------------------------------------------------- scanning for pair ranges

  /** A key that is converted to its successor and back. */
  predicate Successor(k: int, lower: CaseMap, upper: CaseMap) {
    Bidirectional(k, lower, upper) && lower[k][0] == k + 1
  }

  /** What the extraction of two-way ranges leaves behind: no two neighbours with the same distance. */
  ghost predicate NoLinks(lower: CaseMap, upper: CaseMap) {
    forall k :: !Linked(k, lower, upper, true)
  }

  ghost predicate PairScanned(lower: CaseMap, upper: CaseMap, keys: seq<int>, i: nat, starts: seq<int>, lengths: seq<nat>,
                              inRange: bool)
  {
    && |starts| == |lengths| && i <= |keys| && (forall j | 0 <= j < |lengths| :: lengths[j] % 2 == 0)
    && var e := PairRanges(starts, lengths);
       && Distinct(e) && AllFrom(e, lower)
       && (forall x | x in e :: Bidirectional(x.key, lower, upper) && exists j | 0 <= j < i :: keys[j] == x.key)
       && (forall j | 0 <= j < i && Successor(keys[j], lower, upper) :: keys[j] in Keys(e))
       && (inRange ==>
             && i > 0 && lengths != [] && Successor(keys[i - 1], lower, upper)
             && starts[|starts| - 1] + lengths[|lengths| - 1] == keys[i - 1] + 2)
  }

  lemma {:induction false} PairBehindAll(lower: CaseMap, upper: CaseMap, keys: seq<int>, i: nat, starts: seq<int>, lengths: seq<nat>, inRange: bool)
    requires PairScanned(lower, upper, keys, i, starts, lengths, inRange) && SortedKeysOf(keys, lower) && i < |keys|
    ensures keys[i] !in Keys(PairRanges(starts, lengths))
  {
  }

  lemma PairSkips(lower: CaseMap, upper: CaseMap, keys: seq<int>, i: nat, starts: seq<int>, lengths: seq<nat>, inRange: bool)
    requires PairScanned(lower, upper, keys, i, starts, lengths, inRange) && i < |keys|
    requires !Successor(keys[i], lower, upper)
    ensures PairScanned(lower, upper, keys, i + 1, starts, lengths, false)
  {
  }

  lemma PairForgets(lower: CaseMap, upper: CaseMap, keys: seq<int>, i: nat, starts: seq<int>, lengths: seq<nat>, inRange: bool)
    requires PairScanned(lower, upper, keys, i, starts, lengths, inRange)
    ensures PairScanned(lower, upper, keys, i, starts, lengths, false)
  {
  }

  /** Within a range, the key two before is the one that was visited last: the one in between would be linked. */
  lemma PairFollows(lower: CaseMap, upper: CaseMap, keys: seq<int>, i: nat)
    requires SortedKeysOf(keys, lower) && NoLinks(lower, upper) && 0 < i < |keys|
    requires Successor(keys[i], lower, upper) && Successor(keys[i - 1], lower, upper) && keys[i] - 2 in lower
    ensures keys[i - 1] == keys[i] - 2
  {
    assert !Linked(keys[i], lower, upper, true);
    var j :| 0 <= j < |keys| && keys[j] == keys[i] - 2;
    assert j < i && keys[j] <= keys[i - 1] < keys[i];
  }

  lemma PairExtends(lower: CaseMap, upper: CaseMap, keys: seq<int>, i: nat, starts: seq<int>, lengths: seq<nat>)
    requires PairScanned(lower, upper, keys, i, starts, lengths, true) && SortedKeysOf(keys, lower) && i < |keys|
    requires Successor(keys[i], lower, upper) && keys[i] - 2 in lower && NoLinks(lower, upper)
    ensures var n := |lengths| - 1; PairScanned(lower, upper, keys, i + 1, starts, lengths[n := lengths[n] + 2], true)
  {
    hide Distinct, AllFrom, PairRanges, NoLinks;
    var k := keys[i];
    PairFollows(lower, upper, keys, i);
    PairBehindAll(lower, upper, keys, i, starts, lengths, true);
    SingleValue(k, lower, upper, true);
    PairRangesLonger(starts, lengths);
    EntriesGrow(PairRanges(starts, lengths), Entry(k, lower[k]), lower);
  }

  lemma PairStarts(lower: CaseMap, upper: CaseMap, keys: seq<int>, i: nat, starts: seq<int>, lengths: seq<nat>)
    requires PairScanned(lower, upper, keys, i, starts, lengths, false) && SortedKeysOf(keys, lower) && i < |keys|
    requires Successor(keys[i], lower, upper)
    ensures PairScanned(lower, upper, keys, i + 1, starts + [keys[i]], lengths + [2], true)
  {
    hide Distinct, AllFrom, PairRanges;
    var k := keys[i];
    PairBehindAll(lower, upper, keys, i, starts, lengths, false);
    SingleValue(k, lower, upper, true);
    PairRangesNew(starts, lengths, k);
    EntriesGrow(PairRanges(starts, lengths), Entry(k, lower[k]), lower);
  }

  // ---------------------------------------------------------------- deleting inverted entries

  /** Deleting other entries does not change whether a key is converted in both directions. */
  lemma StillBidirectional(k: int, l: CaseMap, u: CaseMap, e: seq<Entry>)
    requires Inverted(e, u) && AllFrom(e, l)
    ensures Bidirectional(k, l - Keys(e), u - Images(e)) <==> k !in Keys(e) && Bidirectional(k, l, u)
  {
    if k !in Keys(e) && Bidirectional(k, l, u) {
      var v := l[k][0];
      forall x | x in e
        ensures x.value[0] != v
      {
        assert x.key in Keys(e) && u[x.value[0]] == [x.key];
      }
    }
  }

  // ---------------------------------------------------------------- the two case maps

  class CaseTables {
    var lower: CaseMap
    var upper: CaseMap

    constructor (lower: CaseMap, upper: CaseMap)
      ensures this.lower == lower && this.upper == upper
    {
      this.lower, this.upper := lower, upper;
    }

    /** `del letter_case[k]`: a missing key would be a KeyError. */
    method DeleteLower(k: int)
      requires k in lower
      modifies this`lower
      ensures lower == old(lower) - {k}
    {
      lower := lower - {k};
    }

    method DeleteUpper(k: int)
      requires k in upper
      modifies this`upper
      ensures upper == old(upper) - {k}
    {
      upper := upper - {k};
    }

    /** The loop that removes all ranges from the maps; no deletion misses. */
    method DeleteRanges(ranges: seq<int>, lengths: seq<nat>, twoWay: bool)
      requires |ranges| == 2 * |lengths|
      requires Distinct(Ranges(ranges, lengths)) && AllFrom(Ranges(ranges, lengths), lower)
      requires twoWay ==> Inverted(Ranges(ranges, lengths), upper)
      modifies this
      ensures lower == old(lower) - Keys(Ranges(ranges, lengths))
      ensures upper == if twoWay then old(upper) - Images(Ranges(ranges, lengths)) else old(upper)
    {
      hide Ranges, Keys, Images, Distinct, AllFrom, Inverted;
      ghost var e, l, u := Ranges(ranges, lengths), lower, upper;
      NothingDeleted(e, l, u);
      RangesPrefix(ranges, lengths, 0);
      for idx := 0 to |lengths|
        invariant Ranges(ranges[..2 * idx], lengths[..idx]) <= e
        invariant lower == l - Keys(e[..|Ranges(ranges[..2 * idx], lengths[..idx])|])
        invariant upper == if twoWay then u - Images(e[..|Ranges(ranges[..2 * idx], lengths[..idx])|]) else u
      {
        ghost var done := |Ranges(ranges[..2 * idx], lengths[..idx])|;
        RangeAt(ranges, lengths, idx);
        for incr := 0 to lengths[idx]
          invariant lower == l - Keys(e[..done + incr])
          invariant upper == if twoWay then u - Images(e[..done + incr]) else u
        {
          ghost var j := done + incr;
          assert e[j] == e[done..done + lengths[idx]][incr] == Entry(ranges[2 * idx] + incr, [ranges[2 * idx + 1] + incr]);
          NextIsNew(e, j);
          KeyThere(e, l, j);
          DeleteLower(ranges[2 * idx] + incr);
          if twoWay {
            NextImageIsNew(e, u, j);
            DeleteUpper(ranges[2 * idx + 1] + incr);
          }
        }
      }
      assert ranges[..2 * |lengths|] == ranges && lengths[..|lengths|] == lengths;
      assert e[..|e|] == e;
    }

    /** `extract_ranges`. Afterwards the map is split into the ranges and the rest, and no two neighbours in the rest
        could have been in a range. */
    method ExtractRanges(twoWay: bool) returns (ranges: seq<int>, lengths: seq<nat>)
      requires GoodMap(lower)
      modifies this
      ensures |ranges| == 2 * |lengths| && Splits(old(lower), Ranges(ranges, lengths), lower)
      ensures forall e | e in Ranges(ranges, lengths) :: Eligible(e.key, old(lower), old(upper), twoWay)
      ensures upper == if twoWay then old(upper) - Images(Ranges(ranges, lengths)) else old(upper)
      ensures forall k | Linked(k, old(lower), old(upper), twoWay) :: k !in lower && k - 1 !in lower
    {
      hide Scanned, Eligible, Bidirectional;
      var inRange := false;
      ranges, lengths := [], [];
      var keys := SortedKeys(lower);
      ScanBegins(lower, upper, twoWay, keys);
      for i := 0 to |keys|
        invariant lower == old(lower) && upper == old(upper)
        invariant Scanned(lower, upper, twoWay, keys, i, ranges, lengths, inRange)
      {
        var letter, previous := keys[i], keys[i] - 1;
        EligibleParts(letter, lower, upper, twoWay);
        EligibleParts(previous, lower, upper, twoWay);
        if !Linked(letter, lower, upper, twoWay) {
          ScanSkips(lower, upper, twoWay, keys, i, ranges, lengths, inRange);
        }
        ScanHolds(lower, upper, twoWay, keys, i, ranges, lengths, inRange);
        if !twoWay {
          if |lower[letter]| > 1 {
            inRange := false;
            continue;
          }
          if previous !in lower || |lower[previous]| > 1 {
            inRange := false;
            continue;
          }
        } else {
          if !Bidirectional(letter, lower, upper) {
            inRange := false;
            continue;
          }
          if !Bidirectional(previous, lower, upper) {
            inRange := false;
            continue;
          }
        }
        if Distance(letter, lower) != Distance(previous, lower) {
          inRange := false;
          continue;
        }
        if inRange {
          ScanExtends(lower, upper, twoWay, keys, i, ranges, lengths);
          lengths := lengths[|lengths| - 1 := lengths[|lengths| - 1] + 1];
        } else {
          ScanStarts(lower, upper, twoWay, keys, i, ranges, lengths);
          inRange := true;
          ranges := ranges + [previous, lower[previous][0]];
          lengths := lengths + [2];
        }
      }
      ScanEnds(lower, upper, twoWay, keys, ranges, lengths, inRange);
      DeleteRanges(ranges, lengths, twoWay);
    }

    /** The loop that removes the pair ranges. */
    method DeletePairRanges(starts: seq<int>, lengths: seq<nat>)
      requires |starts| == |lengths| && forall j | 0 <= j < |lengths| :: lengths[j] % 2 == 0
      requires Distinct(PairRanges(starts, lengths)) && AllFrom(PairRanges(starts, lengths), lower)
      requires Inverted(PairRanges(starts, lengths), upper)
      modifies this
      ensures lower == old(lower) - Keys(PairRanges(starts, lengths))
      ensures upper == old(upper) - Images(PairRanges(starts, lengths))
    {
      hide PairRanges, PairRangeEntries, Keys, Images, Distinct, AllFrom, Inverted;
      ghost var e, l, u := PairRanges(starts, lengths), lower, upper;
      NothingDeleted(e, l, u);
      PairRangesPrefix(starts, lengths, 0);
      for idx := 0 to |lengths|
        invariant PairRanges(starts[..idx], lengths[..idx]) <= e
        invariant lower == l - Keys(e[..|PairRanges(starts[..idx], lengths[..idx])|])
        invariant upper == u - Images(e[..|PairRanges(starts[..idx], lengths[..idx])|])
      {
        ghost var done := |PairRanges(starts[..idx], lengths[..idx])|;
        PairRangeAt(starts, lengths, idx);
        var incr := 0;
        while incr < lengths[idx]
          invariant 0 <= incr <= lengths[idx] && incr % 2 == 0
          invariant lower == l - Keys(e[..done + incr / 2])
          invariant upper == u - Images(e[..done + incr / 2])
        {
          ghost var j := done + incr / 2;
          HalfStep(incr);
          assert e[j] == e[done..done + lengths[idx] / 2][incr / 2];
          PairEntryAt(starts[idx], lengths[idx], incr);
          NextIsNew(e, j);
          KeyThere(e, l, j);
          DeleteLower(starts[idx] + incr);
          NextImageIsNew(e, u, j);
          DeleteUpper(starts[idx] + 1 + incr);
          incr := incr + 2;
        }
      }
      assert starts[..|lengths|] == starts && lengths[..|lengths|] == lengths;
      assert e[..|e|] == e;
    }

    /** `extract_character_pair_ranges`. It relies on what extract_ranges leaves behind. */
    method ExtractPairRanges() returns (starts: seq<int>, lengths: seq<nat>)
      requires GoodMap(lower) && NoLinks(lower, upper)
      modifies this
      ensures |starts| == |lengths| && Splits(old(lower), PairRanges(starts, lengths), lower)
      ensures forall e | e in PairRanges(starts, lengths) :: Bidirectional(e.key, old(lower), old(upper))
      ensures upper == old(upper) - Images(PairRanges(starts, lengths))
    {
      hide PairScanned, Bidirectional, NoLinks;
      starts, lengths := [], [];
      var inRange := false;
      var keys := SortedKeys(lower);
      PairScanBegins(lower, upper, keys);
      for i := 0 to |keys|
        invariant lower == old(lower) && upper == old(upper)
        invariant PairScanned(lower, upper, keys, i, starts, lengths, inRange)
      {
        var letter := keys[i];
        PairScanHolds(lower, upper, keys, i, starts, lengths, inRange);
        if !Successor(letter, lower, upper) {
          PairSkips(lower, upper, keys, i, starts, lengths, inRange);
        }
        if !Bidirectional(letter, lower, upper) {
          inRange := false;
          continue;
        }
        if lower[letter][0] == letter + 1 {
          PairForgets(lower, upper, keys, i, starts, lengths, inRange);
          if !Bidirectional(letter - 2, lower, upper) {
            inRange := false;
          }
          if inRange {
            BidirectionalKey(letter - 2, lower, upper);
            PairExtends(lower, upper, keys, i, starts, lengths);
            lengths := lengths[|lengths| - 1 := lengths[|lengths| - 1] + 2];
          } else {
            PairStarts(lower, upper, keys, i, starts, lengths);
            starts := starts + [letter];
            lengths := lengths + [2];
            inRange := true;
          }
        } else {
          inRange := false;
        }
      }
      PairScanEnds(lower, upper, keys, starts, lengths, inRange);
      DeletePairRanges(starts, lengths);
    }

    /** `extract_character_pairs`: every remaining key that is converted in both directions, and no other. */
    method ExtractPairs() returns (table: seq<int>)
      requires GoodMap(lower)
      modifies this
      ensures Splits(old(lower), Records(table, 1), lower) && upper == old(upper) - Images(Records(table, 1))
      ensures forall k :: k in Keys(Records(table, 1)) <==> Bidirectional(k, old(lower), old(upper))
    {
      hide Bidirectional;
      table := [];
      ghost var l, u := lower, upper;
      var keys := SortedKeys(lower);
      for i := 0 to |keys|
        invariant PairsTaken(l, u, keys, i, table, lower, upper)
      {
        var letter := keys[i];
        PairsNext(l, u, keys, i, table, lower, upper);
        if Bidirectional(letter, lower, upper) {
          BidirectionalKey(letter, lower, upper);
          var mapped := lower[letter];
          table := table + ([letter] + [mapped[0]]);
          DeleteLower(letter);
          DeleteUpper(mapped[0]);
        }
      }
      PairsAll(l, u, keys, table, lower, upper);
    }

    /** One of the three loops of `extract_conversions`: all keys with n characters for a value. */
    method ExtractLength(n: nat) returns (table: seq<int>)
      requires GoodMap(lower) && n >= 1
      modifies this`lower
      ensures Splits(old(lower), Records(table, n), lower) && |table| % (n + 1) == 0
      ensures GoodMap(lower) && forall k :: k in lower <==> k in old(lower) && |old(lower)[k]| != n
    {
      table := [];
      ghost var l := lower;
      var keys := SortedKeys(lower);
      for i := 0 to |keys|
        invariant LengthTaken(l, n, keys, i, table, lower)
      {
        var letter := keys[i];
        LengthNext(l, n, keys, i, table, lower);
        var mapped := lower[letter];
        if |mapped| != n {
          continue;
        }
        table := table + ([letter] + mapped);
        DeleteLower(letter);
      }
    }

    /** `extract_conversions`: everything with one, two or three characters for a value. */
    method ExtractConversions() returns (table: seq<int>, counters: seq<nat>)
      requires GoodMap(lower)
      modifies this`lower
      ensures |counters| == 3 && 2 * counters[0] + 3 * counters[1] <= |table|
      ensures Splits(old(lower), Conversions(table, counters), lower)
      ensures forall k :: k in lower <==> k in old(lower) && |old(lower)[k]| > 3
    {
      hide Records, Splits, Distinct, AllFrom, Conversions;
      ghost var l0 := lower;
      var one := ExtractLength(1);
      ghost var l1 := lower;
      var two := ExtractLength(2);
      ghost var l2 := lower;
      SplitsSubset(l0, Records(one, 1), l1);
      SplitsSubset(l1, Records(two, 2), l2);
      var three := ExtractLength(3);
      SplitsSubset(l2, Records(three, 3), lower);
      SplitsThen(l0, Records(one, 1), l1, Records(two, 2), l2);
      SplitsThen(l0, Records(one, 1) + Records(two, 2), l2, Records(three, 3), lower);
      table := one + two + three;
      counters := [|one| / 2, |two| / 3, |three| / 4];
      ConversionsOf(one, two, three, counters);
    }

    /** The lower-case part of `generate_conversions`. Decoding the five tables gives back the whole lower-case map,
        every mapping once; the first three hold exactly the mappings that are converted in both directions, and
        the inverses of these are what has left the upper-case map. */
    method LowerCaseTables() returns (t: LowerTables)
      requires GoodMap(lower)
      modifies this
      ensures GoodTables(t) && Splits(old(lower), AllEntries(t), lower)
      ensures forall k :: k in lower <==> k in old(lower) && |old(lower)[k]| > 3
      ensures forall k :: k in Keys(TwoWayEntries(t)) <==> Bidirectional(k, old(lower), old(upper))
      ensures upper == old(upper) - Images(TwoWayEntries(t))
    {
      hide Splits, Ranges, PairRanges, Records, Conversions, Bidirectional, Keys, Images, NoLinks, Linked, Eligible;
      ghost var l0, u0 := lower, upper;
      var ranges, rangeLengths := ExtractRanges(true);
      ghost var l1, u1, e1 := lower, upper, Ranges(ranges, rangeLengths);
      SplitsSubset(l0, e1, l1);
      TwoWayRanges(l0, u0, e1, l1, u1);
      var pairStarts, pairLengths := ExtractPairRanges();
      ghost var l2, u2, e2 := lower, upper, PairRanges(pairStarts, pairLengths);
      SplitsSubset(l1, e2, l2);
      TwoWayPairs(l0, u0, e1, l1, u1, e2, l2, u2);
      var pairs := ExtractPairs();
      ghost var l3, u3, e3 := lower, upper, Records(pairs, 1);
      SplitsSubset(l2, e3, l3);
      TwoWayExactly(l0, u0, e1 + e2, l2, u2, e3);
      SplitsThen(l0, e1 + e2, l2, e3, l3);
      var lowerRanges, lowerRangeLengths := ExtractRanges(false);
      ghost var l4, e4 := lower, Ranges(lowerRanges, lowerRangeLengths);
      SplitsSubset(l3, e4, l4);
      SplitsThen(l0, e1 + e2 + e3, l3, e4, l4);
      var conversions, counters := ExtractConversions();
      t := LowerTables(ranges, rangeLengths, pairStarts, pairLengths, pairs, lowerRanges, lowerRangeLengths, conversions, counters);
      SplitsThen(l0, e1 + e2 + e3 + e4, l4, Conversions(conversions, counters), lower);
      LongOnes(l0, u0, e1 + e2 + e3, l3, u3, e4, l4);
    }
  }

  // ---------------------------------------------------------------- the whole pipeline

  datatype LowerTables = LowerTables(
    ranges: seq<int>, rangeLengths: seq<nat>,
    pairStarts: seq<int>, pairLengths: seq<nat>,
    pairs: seq<int>,
    lowerRanges: seq<int>, lowerRangeLengths: seq<nat>,
    conversions: seq<int>, counters: seq<nat>)

  predicate GoodTables(t: LowerTables) {
    && |t.ranges| == 2 * |t.rangeLengths| && |t.pairStarts| == |t.pairLengths|
    && |t.lowerRanges| == 2 * |t.lowerRangeLengths|
    && |t.counters| == 3 && 2 * t.counters[0] + 3 * t.counters[1] <= |t.conversions|
  }

  /** What the tables for conversions in both directions stand for. */
  function TwoWayEntries(t: LowerTables): seq<Entry>
    requires GoodTables(t)
  {
    Ranges(t.ranges, t.rangeLengths) + PairRanges(t.pairStarts, t.pairLengths) + Records(t.pairs, 1)
  }

  function AllEntries(t: LowerTables): seq<Entry>
    requires GoodTables(t)
  {
    TwoWayEntries(t) + Ranges(t.lowerRanges, t.lowerRangeLengths) + Conversions(t.conversions, t.counters)
  }

  /** Decoding gives the map back, if no value is longer than three characters. */
  lemma TablesDecode(m: CaseMap, t: LowerTables, rest: CaseMap)
    requires GoodTables(t) && Splits(m, AllEntries(t), rest)
    requires forall k :: k in rest <==> k in m && |m[k]| > 3
    ensures Decoded(AllEntries(t)) == m <==> forall k | k in m :: |m[k]| <= 3
    ensures |Decoded(AllEntries(t)).Keys| == |AllEntries(t)|
  {
    hide AllEntries, Splits;
    SplitsDecodes(m, AllEntries(t), rest);
    var d := Decoded(AllEntries(t));
    if d == m {
      assert forall k | k in m :: k in d.Keys;
      assert forall k | k in m :: k !in rest.Keys;
    }
    if forall k | k in m :: |m[k]| <= 3 {
      assert forall k :: k !in rest;
      assert rest == map[] && d + rest == d;
    }
  }

  lemma SplitsParts(m: CaseMap, e: seq<Entry>, rest: CaseMap)
    requires Splits(m, e, rest)
    ensures Distinct(e) && AllFrom(e, m) && rest == m - Keys(e)
  {
  }

  lemma TwoWayRanges(l0: CaseMap, u0: CaseMap, e1: seq<Entry>, l1: CaseMap, u1: CaseMap)
    requires Splits(l0, e1, l1) && u1 == u0 - Images(e1)
    requires forall e | e in e1 :: Eligible(e.key, l0, u0, true)
    requires forall k | Linked(k, l0, u0, true) :: k !in l1 && k - 1 !in l1
    ensures Inverted(e1, u0) && NoLinks(l1, u1)
    ensures forall e | e in e1 :: Bidirectional(e.key, l0, u0)
  {
    hide Distinct;
    SplitsParts(l0, e1, l1);
    assert forall e | e in e1 :: Eligible(e.key, l0, u0, true) && Bidirectional(e.key, l0, u0);
    EntriesInverted(e1, l0, u0);
    forall k | Linked(k, l1, u1, true)
      ensures false
    {
      StillBidirectional(k, l0, u0, e1);
      StillBidirectional(k - 1, l0, u0, e1);
      SplitsSubset(l0, e1, l1);
    }
  }

  lemma ImagesConcat(a: seq<Entry>, b: seq<Entry>)
    ensures Images(a + b) == Images(a) + Images(b)
  {
    assert forall e | e in a :: e in a + b;
    assert forall e | e in b :: e in a + b;
  }

  lemma TwoWayPairs(l0: CaseMap, u0: CaseMap, e1: seq<Entry>, l1: CaseMap, u1: CaseMap, e2: seq<Entry>, l2: CaseMap, u2: CaseMap)
    requires Splits(l0, e1, l1) && u1 == u0 - Images(e1) && Inverted(e1, u0)
    requires Splits(l1, e2, l2) && u2 == u1 - Images(e2)
    requires forall e | e in e2 :: Bidirectional(e.key, l1, u1)
    requires forall e | e in e1 :: Bidirectional(e.key, l0, u0)
    ensures Splits(l0, e1 + e2, l2) && u2 == u0 - Images(e1 + e2) && Inverted(e1 + e2, u0)
    ensures forall e | e in e1 + e2 :: Bidirectional(e.key, l0, u0)
  {
    hide Distinct, Bidirectional;
    SplitsThen(l0, e1, l1, e2, l2);
    SplitsParts(l0, e1, l1);
    ImagesConcat(e1, e2);
    assert u2 == u0 - (Images(e1) + Images(e2));
    forall e | e in e2
      ensures Bidirectional(e.key, l0, u0)
    {
      StillBidirectional(e.key, l0, u0, e1);
    }
    SplitsParts(l0, e1 + e2, l2);
    EntriesInverted(e1 + e2, l0, u0);
  }

  lemma TwoWayExactly(l0: CaseMap, u0: CaseMap, e12: seq<Entry>, l2: CaseMap, u2: CaseMap, e3: seq<Entry>)
    requires Splits(l0, e12, l2) && u2 == u0 - Images(e12) && Inverted(e12, u0)
    requires forall e | e in e12 :: Bidirectional(e.key, l0, u0)
    requires forall k :: k in Keys(e3) <==> Bidirectional(k, l2, u2)
    ensures forall k :: k in Keys(e12 + e3) <==> Bidirectional(k, l0, u0)
    ensures u2 - Images(e3) == u0 - Images(e12 + e3)
  {
    hide Distinct, Bidirectional;
    SplitsParts(l0, e12, l2);
    KeysConcat(e12, e3);
    ImagesConcat(e12, e3);
    forall k
      ensures k in Keys(e12 + e3) <==> Bidirectional(k, l0, u0)
    {
      StillBidirectional(k, l0, u0, e12);
    }
    assert u2 - Images(e3) == u0 - (Images(e12) + Images(e3));
  }

  /** Only single characters leave with the ranges and pairs. */
  lemma LongOnes(l0: CaseMap, u0: CaseMap, e123: seq<Entry>, l3: CaseMap, u3: CaseMap, e4: seq<Entry>,
                 l4: CaseMap)
    requires Splits(l0, e123, l3) && Splits(l3, e4, l4)
    requires forall k :: k in Keys(e123) <==> Bidirectional(k, l0, u0)
    requires forall e | e in e4 :: Eligible(e.key, l3, u3, false)
    ensures forall k | k in l0 && |l0[k]| > 3 :: k in l4 && l4[k] == l0[k]
    ensures forall k | k in l4 :: k in l0 && l4[k] == l0[k]
  {
  }

  lemma SplitsSubset(m: CaseMap, e: seq<Entry>, rest: CaseMap)
    requires Splits(m, e, rest)
    ensures forall k | k in rest :: k in m && rest[k] == m[k]
  {
  }

  lemma {:induction false} ConversionsOf(one: seq<int>, two: seq<int>, three: seq<int>, counters: seq<nat>)
    requires |one| % 2 == 0 && |two| % 3 == 0 && counters == [|one| / 2, |two| / 3, |three| / 4]
    ensures 2 * counters[0] + 3 * counters[1] <= |one + two + three|
    ensures Conversions(one + two + three, counters) == Records(one, 1) + Records(two, 2) + Records(three, 3)
  {
    hide Records;
    var table, p, q := one + two + three, 2 * counters[0], 2 * counters[0] + 3 * counters[1];
    assert p == |one| && q == |one| + |two|;
    assert table[..p] == one && table[p..q] == two && table[q..] == three;
  }

  /** Eligibility as the code tests it. */
  lemma EligibleParts(k: int, lower: CaseMap, upper: CaseMap, twoWay: bool)
    requires GoodMap(lower)
    ensures Eligible(k, lower, upper, twoWay)
            <==> if twoWay then Bidirectional(k, lower, upper) else k in lower && !(|lower[k]| > 1)
    ensures Eligible(k, lower, upper, twoWay) ==> k in lower && lower[k] != []
  {
  }

  lemma ScanBegins(lower: CaseMap, upper: CaseMap, twoWay: bool, keys: seq<int>)
    ensures Scanned(lower, upper, twoWay, keys, 0, [], [], false)
  {
  }

  lemma ScanHolds(lower: CaseMap, upper: CaseMap, twoWay: bool, keys: seq<int>, i: nat, ranges: seq<int>, lengths: seq<nat>,
                  inRange: bool)
    requires Scanned(lower, upper, twoWay, keys, i, ranges, lengths, inRange)
    ensures |ranges| == 2 * |lengths| && (inRange ==> lengths != [])
  {
  }

  /** After the scan, the ranges hold every linked key with its predecessor. */
  lemma {:induction false} ScanEnds(lower: CaseMap, upper: CaseMap, twoWay: bool, keys: seq<int>, ranges: seq<int>, lengths: seq<nat>, inRange: bool)
    requires Scanned(lower, upper, twoWay, keys, |keys|, ranges, lengths, inRange) && SortedKeysOf(keys, lower)
    ensures |ranges| == 2 * |lengths|
    ensures var e := Ranges(ranges, lengths);
            && Distinct(e) && AllFrom(e, lower) && (forall x | x in e :: Eligible(x.key, lower, upper, twoWay))
            && (forall k | Linked(k, lower, upper, twoWay) :: k in Keys(e) && k - 1 in Keys(e))
            && (twoWay ==> Inverted(e, upper))
  {
    var e := Ranges(ranges, lengths);
    forall k | Linked(k, lower, upper, twoWay)
      ensures k in Keys(e) && k - 1 in Keys(e)
    {
      var j :| 0 <= j < |keys| && keys[j] == k;
      assert Linked(keys[j], lower, upper, twoWay);
    }
    if twoWay {
      forall x | x in e
        ensures Bidirectional(x.key, lower, upper)
      {
        assert Eligible(x.key, lower, upper, twoWay);
      }
      EntriesInverted(e, lower, upper);
    }
  }

  lemma NothingDeleted(e: seq<Entry>, l: CaseMap, u: CaseMap)
    ensures Keys(e[..0]) == {} && Images(e[..0]) == {} && l - Keys(e[..0]) == l && u - Images(e[..0]) == u
    ensures Ranges([], []) == [] && PairRanges([], []) == []
  {
  }

  lemma KeyThere(e: seq<Entry>, m: CaseMap, j: nat)
    requires j < |e| && AllFrom(e, m)
    ensures e[j].key in m
  {
    assert e[j] in e;
  }

  /** Where the entries of a range are among all entries. */
  lemma {:induction false} RangeAt(ranges: seq<int>, lengths: seq<nat>, idx: nat)
    requires |ranges| == 2 * |lengths| && idx < |lengths|
    ensures var done := Ranges(ranges[..2 * idx], lengths[..idx]); var next := Ranges(ranges[..2 * (idx + 1)], lengths[..idx + 1]);
            && done <= next <= Ranges(ranges, lengths) && |next| == |done| + lengths[idx]
            && Ranges(ranges, lengths)[|done|..|next|] == RangeEntries(ranges[2 * idx], ranges[2 * idx + 1], lengths[idx])
  {
    RangesPrefix(ranges, lengths, idx + 1);
    var r, l := ranges[..2 * (idx + 1)], lengths[..idx + 1];
    assert r[..2 * idx] == ranges[..2 * idx] && l[..idx] == lengths[..idx];
  }

  lemma PairScanBegins(lower: CaseMap, upper: CaseMap, keys: seq<int>)
    ensures PairScanned(lower, upper, keys, 0, [], [], false)
  {
  }

  lemma PairScanHolds(lower: CaseMap, upper: CaseMap, keys: seq<int>, i: nat, starts: seq<int>, lengths: seq<nat>, inRange: bool)
    requires PairScanned(lower, upper, keys, i, starts, lengths, inRange)
    ensures |starts| == |lengths| && (inRange ==> lengths != [])
  {
  }

  lemma BidirectionalKey(k: int, lower: CaseMap, upper: CaseMap)
    requires Bidirectional(k, lower, upper)
    ensures k in lower && lower[k] != [] && lower[k] == [lower[k][0]] && lower[k][0] in upper
  {
  }

  lemma {:induction false} PairScanEnds(lower: CaseMap, upper: CaseMap, keys: seq<int>, starts: seq<int>, lengths: seq<nat>, inRange: bool)
    requires PairScanned(lower, upper, keys, |keys|, starts, lengths, inRange)
    ensures |starts| == |lengths| && forall j | 0 <= j < |lengths| :: lengths[j] % 2 == 0
    ensures var e := PairRanges(starts, lengths);
            && Distinct(e) && AllFrom(e, lower) && Inverted(e, upper)
            && forall x | x in e :: Bidirectional(x.key, lower, upper)
  {
    EntriesInverted(PairRanges(starts, lengths), lower, upper);
  }

  lemma {:induction false} PairRangeAt(starts: seq<int>, lengths: seq<nat>, idx: nat)
    requires |starts| == |lengths| && idx < |lengths| && lengths[idx] % 2 == 0
    ensures var done := PairRanges(starts[..idx], lengths[..idx]); var next := PairRanges(starts[..idx + 1], lengths[..idx + 1]);
            && done <= next <= PairRanges(starts, lengths) && |next| == |done| + lengths[idx] / 2
            && PairRanges(starts, lengths)[|done|..|next|] == PairRangeEntries(starts[idx], lengths[idx])
    ensures PairRanges([], []) == []
  {
    PairRangesPrefix(starts, lengths, idx + 1);
    var r, l := starts[..idx + 1], lengths[..idx + 1];
    assert r[..idx] == starts[..idx] && l[..idx] == lengths[..idx];
  }

  lemma PairEntryAt(start: int, length: nat, incr: nat)
    requires incr % 2 == 0 && length % 2 == 0 && incr < length
    ensures incr / 2 < |PairRangeEntries(start, length)| == length / 2
    ensures PairRangeEntries(start, length)[incr / 2] == Entry(start + incr, [start + incr + 1])
  {
  }

  lemma HalfStep(n: nat)
    requires n % 2 == 0
    ensures (n + 2) % 2 == 0 && (n + 2) / 2 == n / 2 + 1 && 2 * (n / 2) == n
  {
  }

  // ---------------------------------------------------------------- pairs

  /** After i keys, the table holds those of them that are converted in both directions. */
  ghost predicate PairsTaken(l: CaseMap, u: CaseMap, keys: seq<int>, i: nat, table: seq<int>, lower: CaseMap, upper: CaseMap) {
    var e := Records(table, 1);
    && i <= |keys| && Splits(l, e, lower) && upper == u - Images(e) && Inverted(e, u)
    && (forall x | x in e :: Bidirectional(x.key, l, u) && exists j | 0 <= j < i :: keys[j] == x.key)
    && (forall j | 0 <= j < i && Bidirectional(keys[j], l, u) :: keys[j] in Keys(e))
  }

  lemma PairsNext(l: CaseMap, u: CaseMap, keys: seq<int>, i: nat, table: seq<int>, lower: CaseMap, upper: CaseMap)
    requires PairsTaken(l, u, keys, i, table, lower, upper) && SortedKeysOf(keys, l) && i < |keys| && GoodMap(l)
    ensures !Bidirectional(keys[i], lower, upper) ==> PairsTaken(l, u, keys, i + 1, table, lower, upper)
    ensures Bidirectional(keys[i], lower, upper) ==>
              PairsTaken(l, u, keys, i + 1, table + ([keys[i]] + [lower[keys[i]][0]]), lower - {keys[i]}, upper - {lower[keys[i]][0]})
  {
    hide Bidirectional, Distinct, AllFrom, Inverted, Images, Records;
    var k, e := keys[i], Records(table, 1);
    assert k !in Keys(e);
    StillBidirectional(k, l, u, e);
    if Bidirectional(k, lower, upper) {
      BidirectionalKey(k, lower, upper);
      BidirectionalKey(k, l, u);
      var x := Entry(k, [lower[k][0]]);
      RecordsNew(table, k, [lower[k][0]]);
      EntriesGrow(e, x, l);
      ImagesAppend(e, x);
      InvertedAppend(e, x, l, u);
      assert l - Keys(e + [x]) == (l - Keys(e)) - {k};
      assert u - Images(e + [x]) == (u - Images(e)) - {lower[k][0]};
    }
  }

  lemma ImagesAppend(e: seq<Entry>, x: Entry)
    requires x.value != []
    ensures Images(e + [x]) == Images(e) + {x.value[0]}
  {
    assert forall y | y in e :: y in e + [x];
    assert x in e + [x];
  }

  lemma InvertedAppend(e: seq<Entry>, x: Entry, l: CaseMap, u: CaseMap)
    requires Inverted(e, u) && Bidirectional(x.key, l, u) && l[x.key] == x.value
    ensures Inverted(e + [x], u)
  {
    assert u[x.value[0]] == [u[x.value[0]][0]];
  }

  lemma {:induction false} PairsAll(l: CaseMap, u: CaseMap, keys: seq<int>, table: seq<int>, lower: CaseMap, upper: CaseMap)
    requires PairsTaken(l, u, keys, |keys|, table, lower, upper) && SortedKeysOf(keys, l)
    ensures forall k :: k in Keys(Records(table, 1)) <==> Bidirectional(k, l, u)
  {
    forall k | Bidirectional(k, l, u)
      ensures k in Keys(Records(table, 1))
    {
      var j :| 0 <= j < |keys| && keys[j] == k;
      assert Bidirectional(keys[j], l, u);
    }
  }

  // ---------------------------------------------------------------- conversions by length

  ghost predicate LengthTaken(l: CaseMap, n: nat, keys: seq<int>, i: nat, table: seq<int>, lower: CaseMap) {
    var e := Records(table, n);
    && i <= |keys| && Splits(l, e, lower) && |table| % (n + 1) == 0
    && (forall x | x in e :: |x.value| == n && exists j | 0 <= j < i :: keys[j] == x.key)
    && (forall j | 0 <= j < i && keys[j] in l && |l[keys[j]]| == n :: keys[j] in Keys(e))
  }

  lemma LengthNext(l: CaseMap, n: nat, keys: seq<int>, i: nat, table: seq<int>, lower: CaseMap)
    requires LengthTaken(l, n, keys, i, table, lower) && SortedKeysOf(keys, l) && i < |keys|
    ensures keys[i] in lower && lower[keys[i]] == l[keys[i]]
    ensures |l[keys[i]]| != n ==> LengthTaken(l, n, keys, i + 1, table, lower)
    ensures |l[keys[i]]| == n ==> LengthTaken(l, n, keys, i + 1, table + ([keys[i]] + l[keys[i]]), lower - {keys[i]})
  {
    hide Distinct, AllFrom, Records;
    var k, e := keys[i], Records(table, n);
    assert k !in Keys(e);
    if |l[k]| == n {
      var x := Entry(k, l[k]);
      RecordsNew(table, k, l[k]);
      EntriesGrow(e, x, l);
      assert l - Keys(e + [x]) == (l - Keys(e)) - {k};
      MultipleGrows(|table|, n + 1);
    }
  }

  lemma MultipleGrows(a: nat, n: nat)
    requires n >= 1 && a % n == 0
    ensures (a + n) % n == 0
  {
    var q := a / n;
    assert a == n * q;
    assert n * (q + 1) == n * q + n;
    ModUnique(a + n, n, q + 1, 0);
  }
}
