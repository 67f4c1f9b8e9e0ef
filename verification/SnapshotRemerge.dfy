/** Merging merged snapshots: what a merge does depends only on the functions of its inputs in order. */
module SnapshotRemerge {
  import opened Words
  import opened Bytes
  import opened SnapshotModel
  import opened SnapshotLiterals
  import opened SnapshotMaps
  import opened SnapshotFile
  import opened SnapshotGenerate
  import opened SnapshotLoad
  import opened SnapshotMerge

  // ---------------------------------------------------------------- functions of a list of inputs

  lemma {:induction false} FunctionsOfPrefix(a: seq<seq<Byte>>, ra: seq<seq<RCode>>, b: seq<seq<Byte>>, rb: seq<seq<RCode>>, n: nat)
    requires n <= |a| == |ra| && |b| == |rb|
    ensures AllFunctions(a + b, ra + rb, n) == AllFunctions(a, ra, n)
    decreases n
  {
    hide FunctionsOf;
    if n > 0 {
      FunctionsOfPrefix(a, ra, b, rb, n - 1);
      assert (a + b)[n - 1] == a[n - 1] && (ra + rb)[n - 1] == ra[n - 1];
    }
  }

  lemma {:induction false} FunctionsOfConcat(a: seq<seq<Byte>>, ra: seq<seq<RCode>>, b: seq<seq<Byte>>, rb: seq<seq<RCode>>, n: nat)
    requires |a| == |ra| && n <= |b| == |rb|
    ensures AllFunctions(a + b, ra + rb, |a| + n) == AllFunctions(a, ra, |a|) + AllFunctions(b, rb, n)
    decreases n
  {
    hide FunctionsOf;
    if n == 0 {
      FunctionsOfPrefix(a, ra, b, rb, |a|);
    } else {
      FunctionsOfConcat(a, ra, b, rb, n - 1);
      assert (a + b)[|a| + n - 1] == b[n - 1] && (ra + rb)[|a| + n - 1] == rb[n - 1];
      var x, y, z := AllFunctions(a, ra, |a|), AllFunctions(b, rb, n - 1), FunctionsOf(b[n - 1], rb[n - 1]);
      assert (x + y) + z == x + (y + z);
    }
  }

  lemma FunctionsOfOne(s: seq<Byte>, raws: seq<RCode>)
    ensures AllFunctions([s], [raws], 1) == FunctionsOf(s, raws)
  {
    hide FunctionsOf;
    assert AllFunctions([s], [raws], 0) == [];
    assert [] + FunctionsOf(s, raws) == FunctionsOf(s, raws);
  }

  /** An input that holds the functions of a group of inputs may stand for the group, at any place in the list. */
  lemma {:induction false} GroupReplaced(before: seq<seq<Byte>>, beforeRaws: seq<seq<RCode>>, group: seq<seq<Byte>>, groupRaws: seq<seq<RCode>>,
                        after: seq<seq<Byte>>, afterRaws: seq<seq<RCode>>, inner: seq<Byte>, innerRaws: seq<RCode>)
    requires |before| == |beforeRaws| && |group| == |groupRaws| && |after| == |afterRaws|
    requires FunctionsOf(inner, innerRaws) == AllFunctions(group, groupRaws, |group|)
    ensures AllFunctions(before + [inner] + after, beforeRaws + [innerRaws] + afterRaws, |before| + 1 + |after|)
         == AllFunctions(before + group + after, beforeRaws + groupRaws + afterRaws, |before| + |group| + |after|)
  {
    hide FunctionsOf, AllFunctions;
    FunctionsOfOne(inner, innerRaws);
    FunctionsOfConcat(before, beforeRaws, [inner], [innerRaws], 1);
    FunctionsOfConcat(before, beforeRaws, group, groupRaws, |group|);
    FunctionsOfConcat(before + [inner], beforeRaws + [innerRaws], after, afterRaws, |after|);
    FunctionsOfConcat(before + group, beforeRaws + groupRaws, after, afterRaws, |after|);
  }

  // ---------------------------------------------------------------- sizes and literals, from the functions alone

  lemma {:induction false} SizesFromFunctions(inputs: seq<seq<Byte>>, raws: seq<seq<RCode>>, n: nat)
    requires n <= |inputs| == |raws|
    ensures var all := AllFunctions(inputs, raws, n); CountSum(raws, n) == |all| && AreaSum(raws, n) == SubsSize(all)
    decreases n
  {
    hide SubsSize, FunctionsOf;
    if n == 0 {
      NoSize();
    } else {
      SizesFromFunctions(inputs, raws, n - 1);
      FunctionsSized(inputs[n - 1], raws[n - 1]);
      FlattenAllConcat(AllFunctions(inputs, raws, n - 1), FunctionsOf(inputs[n - 1], raws[n - 1]));
    }
  }

  lemma FunctionsSized(s: seq<Byte>, raws: seq<RCode>)
    ensures |FunctionsOf(s, raws)| == |raws| && SubsSize(FunctionsOf(s, raws)) == SubsSize(raws)
  {
    MapTreesSize(raws, Resolving(TableResolver(TableOf(s))), Resolving(TableResolver(TableOf(s))));
  }

  /** The literal occurs in the resolved values. */
  ghost predicate LiteralIn(l: Literal, values: seq<RValue>) {
    Stored(l) in values
  }

  ghost predicate Occurs(l: Literal, blocks: seq<RBlock>) {
    exists rb | rb in blocks :: rb.FunctionBlock? && (LiteralIn(l, rb.consts) || LiteralIn(l, rb.tail))
  }

  lemma OccursConcat(l: Literal, a: seq<RBlock>, b: seq<RBlock>)
    ensures Occurs(l, a + b) <==> Occurs(l, a) || Occurs(l, b)
  {
    if Occurs(l, a) {
      var rb :| rb in a && rb.FunctionBlock? && (LiteralIn(l, rb.consts) || LiteralIn(l, rb.tail));
      assert rb in a + b;
    }
    if Occurs(l, b) {
      var rb :| rb in b && rb.FunctionBlock? && (LiteralIn(l, rb.consts) || LiteralIn(l, rb.tail));
      assert rb in a + b;
    }
  }

  /** The engine interns a literal of the blocks as w. */
  ghost predicate InternedAs(w: Word, intern: Literal -> Word, blocks: seq<RBlock>) {
    exists l | Occurs(l, blocks) :: intern(l) == w
  }

  lemma InternedAsConcat(w: Word, intern: Literal -> Word, a: seq<RBlock>, b: seq<RBlock>)
    ensures InternedAs(w, intern, a + b) <==> InternedAs(w, intern, a) || InternedAs(w, intern, b)
  {
    hide Occurs;
    forall l
      ensures Occurs(l, a + b) <==> Occurs(l, a) || Occurs(l, b)
    {
      OccursConcat(l, a, b);
    }
  }

  lemma ValuesScanned(w: Word, intern: Literal -> Word, table: seq<Byte>, values: seq<RValue>)
    requires AllPortable(table, values)
    ensures InternedFrom(w, intern, table, values)
            <==> exists l | LiteralIn(l, MapValues(values, Resolving(TableResolver(table)))) :: intern(l) == w
  {
    hide IsOffset, InTable, GetLiteral, Poolable;
    var g := Resolving(TableResolver(table));
    var moved := MapValues(values, g);
    if InternedFrom(w, intern, table, values) {
      var v :| v in values && v.Direct? && IsOffset(v.word) && InTable(table, v.word) && intern(GetLiteral(table, v.word)) == w;
      var i :| 0 <= i < |values| && values[i] == v;
      assert moved[i] == Stored(GetLiteral(table, v.word)) && LiteralIn(GetLiteral(table, v.word), moved);
    }
    if l :| LiteralIn(l, moved) && intern(l) == w {
      var i :| 0 <= i < |moved| && moved[i] == Stored(l);
      assert values[i] in values && Portable(table, values[i]);
    }
  }

  /** What the scan finds in an input is what occurs in its functions. */
  lemma ScannedExactly(w: Word, intern: Literal -> Word, table: seq<Byte>, blocks: seq<RBlock>)
    requires PortableBlocks(table, blocks)
    ensures var g := Resolving(TableResolver(table)); ScannedFrom(w, intern, table, blocks) <==> InternedAs(w, intern, MapBlocks(blocks, g, g))
  {
    hide AllPortable, InternedFrom, LiteralIn, MapValues;
    var g := Resolving(TableResolver(table));
    var moved := MapBlocks(blocks, g, g);
    if ScannedFrom(w, intern, table, blocks) {
      var rb :| rb in blocks && rb.FunctionBlock? && (InternedFrom(w, intern, table, rb.consts) || InternedFrom(w, intern, table, rb.tail));
      var i :| 0 <= i < |blocks| && blocks[i] == rb;
      ValuesScanned(w, intern, table, rb.consts);
      ValuesScanned(w, intern, table, rb.tail);
      assert moved[i] in moved;
      var values := if InternedFrom(w, intern, table, rb.consts) then moved[i].consts else moved[i].tail;
      var l :| LiteralIn(l, values) && intern(l) == w;
      assert Occurs(l, moved);
    }
    if l :| Occurs(l, moved) && intern(l) == w {
      var m :| m in moved && m.FunctionBlock? && (LiteralIn(l, m.consts) || LiteralIn(l, m.tail));
      var i :| 0 <= i < |moved| && moved[i] == m;
      assert blocks[i] in blocks;
      ValuesScanned(w, intern, table, blocks[i].consts);
      ValuesScanned(w, intern, table, blocks[i].tail);
    }
  }

  lemma {:induction false} InputScanned(w: Word, intern: Literal -> Word, s: seq<Byte>, raws: seq<RCode>)
    requires SnapshotIs(s, raws)
    ensures ScannedFrom(w, intern, TableOf(s), FlattenAll(raws)) <==> InternedAs(w, intern, FlattenAll(FunctionsOf(s, raws)))
  {
    hide SnapshotIs, ScannedFrom, InternedAs, MapTrees, FlattenAll, PortableBlocks, MapBlocks, TableResolver;
    InputFacts(s, raws);
    var g := Resolving(TableResolver(TableOf(s)));
    FlattenAllMap(raws, g, g);
    ScannedExactly(w, intern, TableOf(s), FlattenAll(raws));
  }

  ghost predicate ScannedIn(w: Word, intern: Literal -> Word, inputs: seq<seq<Byte>>, raws: seq<seq<RCode>>, n: nat)
    requires n <= |inputs| == |raws|
  {
    exists i | 0 <= i < n :: ScannedFrom(w, intern, TableOf(inputs[i]), FlattenAll(raws[i]))
  }

  lemma NothingScannedIn(w: Word, intern: Literal -> Word, inputs: seq<seq<Byte>>, raws: seq<seq<RCode>>)
    requires |inputs| == |raws|
    ensures !ScannedIn(w, intern, inputs, raws, 0) && !InternedAs(w, intern, FlattenAll(AllFunctions(inputs, raws, 0)))
  {
    assert FlattenAll([]) == [];
  }

  lemma ScannedInNext(w: Word, intern: Literal -> Word, inputs: seq<seq<Byte>>, raws: seq<seq<RCode>>, n: nat)
    requires 0 < n <= |inputs| == |raws|
    ensures ScannedIn(w, intern, inputs, raws, n)
            <==> ScannedIn(w, intern, inputs, raws, n - 1) || ScannedFrom(w, intern, TableOf(inputs[n - 1]), FlattenAll(raws[n - 1]))
  {
    hide ScannedFrom, TableOf, FlattenAll;
  }

  lemma {:induction false} ScannedInFunctions(w: Word, intern: Literal -> Word, inputs: seq<seq<Byte>>, raws: seq<seq<RCode>>, n: nat)
    requires n <= |inputs| == |raws| && forall i | 0 <= i < n :: SnapshotIs(inputs[i], raws[i])
    ensures ScannedIn(w, intern, inputs, raws, n) <==> InternedAs(w, intern, FlattenAll(AllFunctions(inputs, raws, n)))
    decreases n
  {
    hide SnapshotIs, InternedAs, FlattenAll, FunctionsOf, ScannedFrom, TableOf, ScannedIn;
    if n == 0 {
      NothingScannedIn(w, intern, inputs, raws);
    } else {
      ScannedInFunctions(w, intern, inputs, raws, n - 1);
      ScannedInNext(w, intern, inputs, raws, n);
      InputScanned(w, intern, inputs[n - 1], raws[n - 1]);
      var most, last := AllFunctions(inputs, raws, n - 1), FunctionsOf(inputs[n - 1], raws[n - 1]);
      FlattenAllConcat(most, last);
      InternedAsConcat(w, intern, FlattenAll(most), FlattenAll(last));
    }
  }

  ghost predicate AllSnapshots(inputs: seq<seq<Byte>>, raws: seq<seq<RCode>>) {
    |inputs| == |raws| && forall i | 0 <= i < |inputs| :: SnapshotIs(inputs[i], raws[i])
  }

  /** The pool of a merge is the set of words under which the literals of its functions are interned. */
  lemma PoolFromFunctions(pool: seq<Word>, intern: Literal -> Word, inputs: seq<seq<Byte>>, raws: seq<seq<RCode>>, w: Word)
    requires AllSnapshots(inputs, raws) && PoolOf(pool, intern, inputs, raws, |inputs|)
    ensures w in pool <==> InternedAs(w, intern, FlattenAll(AllFunctions(inputs, raws, |inputs|)))
  {
    hide SnapshotIs, InternedAs, FlattenAll, AllFunctions, TableOf, AllPoolable;
    ScannedInFunctions(w, intern, inputs, raws, |inputs|);
    if ScannedIn(w, intern, inputs, raws, |inputs|) {
      var i :| 0 <= i < |inputs| && ScannedFrom(w, intern, TableOf(inputs[i]), FlattenAll(raws[i]));
      ScannedCollected(w, pool, intern, TableOf(inputs[i]), FlattenAll(raws[i]));
    }
  }

  lemma ScannedCollected(w: Word, pool: seq<Word>, intern: Literal -> Word, table: seq<Byte>, blocks: seq<RBlock>)
    requires ScannedFrom(w, intern, table, blocks) && ScanCollected(pool, intern, table, blocks)
    ensures w in pool
  {
    hide IsOffset, InTable, GetLiteral;
  }

  // ---------------------------------------------------------------- the size of a table does not depend on the order

  lemma {:induction false} TableSizeConcat(a: seq<Literal>, b: seq<Literal>)
    ensures TableSize(a + b) == TableSize(a) + TableSize(b)
    decreases |b|
  {
    if b == [] {
      assert a + b == a;
    } else {
      hide EntrySize;
      var most := b[..|b| - 1];
      TableSizeConcat(a, most);
      assert (a + b)[..|a + b| - 1] == a + most;
    }
  }

  lemma TableSizeOne(l: Literal)
    ensures TableSize([l]) == EntrySize(l)
  {
    assert [l][..0] == [];
  }

  lemma ContentsConcat(p: seq<Word>, q: seq<Word>, content: Word -> Literal)
    ensures Contents(p + q, content) == Contents(p, content) + Contents(q, content)
  {
  }

  lemma {:induction false} TableSizePermuted(p: seq<Word>, q: seq<Word>, content: Word -> Literal)
    requires multiset(p) == multiset(q)
    ensures TableSize(Contents(p, content)) == TableSize(Contents(q, content))
    decreases |p|
  {
    hide TableSize, Contents;
    if p == [] {
      assert |q| == |multiset(q)| == |multiset(p)| == 0;
      assert p == q;
    } else {
      var w, rest := p[0], p[1..];
      var left, right := FoundIn(p, q);
      assert p == [] + [w] + rest && [] + rest == rest;
      WithoutOne(w, rest, left, right);
      TableSizePermuted(rest, left + right, content);
      WordTaken([], w, rest, content);
      WordTaken(left, w, right, content);
    }
  }

  /** The first word of p, somewhere in q. */
  lemma FoundIn(p: seq<Word>, q: seq<Word>) returns (left: seq<Word>, right: seq<Word>)
    requires p != [] && multiset(p) == multiset(q)
    ensures q == left + [p[0]] + right
  {
    assert p[0] in multiset(q);
    var i :| 0 <= i < |q| && q[i] == p[0];
    left, right := q[..i], q[i + 1..];
  }

  lemma WithoutOne(w: Word, rest: seq<Word>, left: seq<Word>, right: seq<Word>)
    requires multiset([] + [w] + rest) == multiset(left + [w] + right)
    ensures multiset(rest) == multiset(left + right)
  {
    var p: seq<Word>, q: seq<Word> := [] + [w] + rest, left + [w] + right;
    forall x: Word
      ensures multiset(rest)[x] == multiset(left + right)[x]
    {
      assert multiset(p)[x] == multiset([w])[x] + multiset(rest)[x];
      assert multiset(q)[x] == multiset(left)[x] + multiset([w])[x] + multiset(right)[x];
      assert multiset(left + right)[x] == multiset(left)[x] + multiset(right)[x];
    }
  }

  lemma WordTaken(left: seq<Word>, w: Word, right: seq<Word>, content: Word -> Literal)
    ensures TableSize(Contents(left + [w] + right, content)) == TableSize(Contents(left + right, content)) + EntrySize(content(w))
  {
    hide TableSize, EntrySize;
    var a, b := Contents(left, content), Contents(right, content);
    ContentsConcat(left, [w], content);
    ContentsConcat(left + [w], right, content);
    ContentsConcat(left, right, content);
    TableSizeConcat(a, [content(w)]);
    TableSizeConcat(a + [content(w)], b);
    TableSizeConcat(a, b);
    TableSizeOne(content(w));
    assert Contents([w], content) == [content(w)];
  }

  lemma SameElements(p: seq<Word>, q: seq<Word>)
    requires AllPoolable(p) && AllPoolable(q) && forall w: Word :: w in p <==> w in q
    ensures multiset(p) == multiset(q)
  {
    hide Poolable;
    forall w: Word
      ensures multiset(p)[w] == multiset(q)[w]
    {
      OnceOrNever(p, w);
      OnceOrNever(q, w);
    }
  }

  lemma {:induction false} OnceOrNever(p: seq<Word>, w: Word)
    requires forall i, j | 0 <= i < j < |p| :: p[i] != p[j]
    ensures multiset(p)[w] == if w in p then 1 else 0
  {
    if p != [] {
      assert p == [p[0]] + p[1..];
      OnceOrNever(p[1..], w);
    }
  }

  // ---------------------------------------------------------------- merging twice

  /** Two merges of the same functions need the same space: for the code with its header, and for the literals. */
  lemma {:induction false} SameSizes(inputs: seq<seq<Byte>>, raws: seq<seq<RCode>>, inputs': seq<seq<Byte>>, raws': seq<seq<RCode>>)
    requires |inputs| == |raws| && |inputs'| == |raws'|
    requires AllFunctions(inputs, raws, |inputs|) == AllFunctions(inputs', raws', |inputs'|)
    ensures FunctionsSize(raws) == FunctionsSize(raws')
  {
    hide AllFunctions, AreaSum, CountSum, SubsSize;
    SizesFromFunctions(inputs, raws, |inputs|);
    SizesFromFunctions(inputs', raws', |inputs'|);
  }

  lemma PoolDistinct(pool: seq<Word>, intern: Literal -> Word, inputs: seq<seq<Byte>>, raws: seq<seq<RCode>>)
    requires |inputs| == |raws| && PoolOf(pool, intern, inputs, raws, |inputs|)
    ensures AllPoolable(pool)
  {
    hide AllPoolable, ScanCollected, ScannedFrom, FlattenAll, TableOf;
  }

  lemma SameTables(pool: seq<Word>, pool': seq<Word>, content: Word -> Literal, intern: Literal -> Word,
                   inputs: seq<seq<Byte>>, raws: seq<seq<RCode>>, inputs': seq<seq<Byte>>, raws': seq<seq<RCode>>)
    requires AllSnapshots(inputs, raws) && PoolOf(pool, intern, inputs, raws, |inputs|)
    requires AllSnapshots(inputs', raws') && PoolOf(pool', intern, inputs', raws', |inputs'|)
    requires AllFunctions(inputs, raws, |inputs|) == AllFunctions(inputs', raws', |inputs'|)
    ensures TableSize(Contents(pool, content)) == TableSize(Contents(pool', content))
  {
    hide SnapshotIs, InternedAs, FlattenAll, AllFunctions, PoolOf, TableSize, AllPoolable, Contents;
    PoolDistinct(pool, intern, inputs, raws);
    PoolDistinct(pool', intern, inputs', raws');
    SamePool(pool, pool', intern, inputs, raws, inputs', raws');
    SameElements(pool, pool');
    TableSizePermuted(pool, pool', content);
  }

  lemma SamePool(pool: seq<Word>, pool': seq<Word>, intern: Literal -> Word,
                 inputs: seq<seq<Byte>>, raws: seq<seq<RCode>>, inputs': seq<seq<Byte>>, raws': seq<seq<RCode>>)
    requires AllSnapshots(inputs, raws) && PoolOf(pool, intern, inputs, raws, |inputs|)
    requires AllSnapshots(inputs', raws') && PoolOf(pool', intern, inputs', raws', |inputs'|)
    requires AllFunctions(inputs, raws, |inputs|) == AllFunctions(inputs', raws', |inputs'|)
    ensures forall w: Word :: w in pool <==> w in pool'
  {
    hide SnapshotIs, InternedAs, FlattenAll, AllFunctions, PoolOf, TableSize, AllPoolable, Contents;
    forall w: Word
      ensures w in pool <==> w in pool'
    {
      PoolFromFunctions(pool, intern, inputs, raws, w);
      PoolFromFunctions(pool', intern, inputs', raws', w);
    }
  }

  ghost predicate GoodInputs(inputs: seq<seq<Byte>>, raws: seq<seq<RCode>>, intern: Literal -> Word, content: Word -> Literal) {
    |inputs| == |raws| && forall i | 0 <= i < |inputs| :: GoodInput(inputs[i], raws[i], intern, content)
  }

  predicate GoodHeaders(inputs: seq<seq<Byte>>) {
    forall i | 0 <= i < |inputs| :: GoodHeader(inputs[i])
  }

  lemma InputsConcat(a: seq<seq<Byte>>, ra: seq<seq<RCode>>, b: seq<seq<Byte>>, rb: seq<seq<RCode>>, intern: Literal -> Word, content: Word -> Literal)
    requires GoodInputs(a, ra, intern, content) && GoodInputs(b, rb, intern, content)
    ensures GoodInputs(a + b, ra + rb, intern, content) && |a| == |ra| && |b| == |rb|
    ensures GoodHeaders(a + b) <==> GoodHeaders(a) && GoodHeaders(b)
  {
    hide GoodInput, GoodHeader;
    if GoodHeaders(a + b) {
      assert forall i | 0 <= i < |a| :: (a + b)[i] == a[i];
      assert forall i | 0 <= i < |b| :: (a + b)[|a| + i] == b[i];
    }
  }

  lemma GoodAreSnapshots(inputs: seq<seq<Byte>>, raws: seq<seq<RCode>>, intern: Literal -> Word, content: Word -> Literal)
    requires GoodInputs(inputs, raws, intern, content) && GoodHeaders(inputs)
    ensures AllSnapshots(inputs, raws)
  {
    hide GoodHeader, SnapshotIs;
  }

  /** How a merge ends for good inputs with a pool of their literals, in a buffer of a given size. */
  ghost predicate Ends(result: MergeResult, limit: nat, inputs: seq<seq<Byte>>, raws: seq<seq<RCode>>, intern: Literal -> Word,
                       content: Word -> Literal, pool: seq<Word>) {
    && |inputs| == |raws|
    && (result.Merged? ==> |inputs| >= 2 && GoodHeaders(inputs))
    && (|inputs| >= 2 && GoodHeaders(inputs) ==>
          && (result.OutputTooSmall? <==> FunctionsSize(raws) >= limit)
          && (result.OutputTooSmall? || result.LiteralsTooLarge? || result.Merged?)
          && (!result.OutputTooSmall? ==> PoolOf(pool, intern, inputs, raws, |inputs|))
          && (result.LiteralsTooLarge? ==> TableSize(Contents(pool, content)) > Smaller(limit - FunctionsSize(raws), MAXIMUM_TABLE_SIZE))
          && (result.Merged? ==> TableSize(Contents(pool, content)) <= Smaller(limit - FunctionsSize(raws), MAXIMUM_TABLE_SIZE))
          && (result.Merged? ==> result.size == FunctionsSize(raws) + TableSize(Contents(pool, content))))
  }

  /** The same functions and the same buffer size: the merges end alike. */
  lemma EndAlike(result: MergeResult, result': MergeResult, limit: nat, pool: seq<Word>, pool': seq<Word>, intern: Literal -> Word,
                 content: Word -> Literal, inputs: seq<seq<Byte>>, raws: seq<seq<RCode>>, inputs': seq<seq<Byte>>, raws': seq<seq<RCode>>)
    requires Ends(result, limit, inputs, raws, intern, content, pool)
    requires Ends(result', limit, inputs', raws', intern, content, pool')
    requires GoodInputs(inputs, raws, intern, content) && |inputs| >= 2 && GoodHeaders(inputs)
    requires GoodInputs(inputs', raws', intern, content) && |inputs'| >= 2 && GoodHeaders(inputs')
    requires AllFunctions(inputs, raws, |inputs|) == AllFunctions(inputs', raws', |inputs'|)
    ensures result == result'
  {
    hide AllFunctions, FunctionsSize, TableSize, Contents, PoolOf, GoodInputs, GoodHeaders, AllSnapshots;
    SameSizes(inputs, raws, inputs', raws');
    GoodAreSnapshots(inputs, raws, intern, content);
    GoodAreSnapshots(inputs', raws', intern, content);
    if !result.OutputTooSmall? {
      SameTables(pool, pool', content, intern, inputs, raws, inputs', raws');
    }
  }

  /** One merge, with its outcome in one predicate. */
  method Merge(inputs: seq<seq<Byte>>, out: array<Byte>, content: Word -> Literal, intern: Literal -> Word, ghost raws: seq<seq<RCode>>)
    returns (result: MergeResult, ghost merged: seq<RCode>, ghost pool: seq<Word>)
    requires GoodInputs(inputs, raws, intern, content) && GoodContent(content) && out.Length < 0x1_0000_0000
    modifies out
    ensures Ends(result, out.Length, inputs, raws, intern, content, pool)
    ensures result.Merged? ==> result.size <= out.Length && SnapshotIs(out[..result.size], merged)
    ensures result.Merged? ==> FunctionsOf(out[..result.size], merged) == AllFunctions(inputs, raws, |inputs|)
    ensures result.Merged? ==> GoodInput(out[..result.size], merged, intern, content)
  {
    hide SnapshotIs, GoodInput, GoodHeader, FunctionsOf, AllFunctions, FunctionsSize, TableSize, Contents, PoolOf, GoodContent;
    result, merged, pool := MergeSnapshots(inputs, out, content, intern, raws);
  }

  lemma InnerGood(s: seq<Byte>, raws: seq<RCode>, intern: Literal -> Word, content: Word -> Literal)
    requires SnapshotIs(s, raws) && GoodInput(s, raws, intern, content)
    ensures GoodInputs([s], [raws], intern, content) && GoodHeaders([s])
  {
    hide GoodInput;
    SnapshotHeader(s, raws);
  }

  /** A group of inputs is merged first, and its result is merged with the inputs before and after the group; then
      all inputs are merged at once. The first way gives the functions of the second, in the same number of bytes,
      and it ends like the second in a buffer of the same size. */
  method MergeInGroups(before: seq<seq<Byte>>, group: seq<seq<Byte>>, after: seq<seq<Byte>>, innerOut: array<Byte>, out: array<Byte>,
                       flatOut: array<Byte>, content: Word -> Literal, intern: Literal -> Word,
                       ghost beforeRaws: seq<seq<RCode>>, ghost groupRaws: seq<seq<RCode>>, ghost afterRaws: seq<seq<RCode>>)
    returns (inner: MergeResult, nested: MergeResult, flat: MergeResult, ghost nestedRaws: seq<RCode>, ghost flatRaws: seq<RCode>)
    requires GoodInputs(before, beforeRaws, intern, content) && GoodInputs(group, groupRaws, intern, content)
    requires GoodInputs(after, afterRaws, intern, content) && |before| + |after| >= 1 && GoodContent(content)
    requires innerOut.Length < 0x1_0000_0000 && out.Length < 0x1_0000_0000 && flatOut.Length == out.Length && out != flatOut
    modifies innerOut, out, flatOut
    ensures inner.Merged? && GoodHeaders(before) && GoodHeaders(after) ==> nested == flat
    ensures inner.Merged? ==> (nested.Merged? <==> flat.Merged?)
    ensures inner.Merged? && nested.Merged? ==>
      && nested.size == flat.size <= out.Length
      && SnapshotIs(out[..nested.size], nestedRaws) && SnapshotIs(flatOut[..flat.size], flatRaws)
      && FunctionsOf(out[..nested.size], nestedRaws) == FunctionsOf(flatOut[..flat.size], flatRaws)
  {
    hide SnapshotIs, GoodInputs, GoodHeaders, GoodInput, FunctionsOf, AllFunctions, GoodContent;
    nestedRaws, flatRaws, nested, flat := [], [], TooFew, TooFew;
    ghost var innerRaws, pool, pool', pool'';
    inner, innerRaws, pool := Merge(group, innerOut, content, intern, groupRaws);
    if inner.Merged? {
      var s := innerOut[..inner.size];
      InnerGood(s, innerRaws, intern, content);
      InputsConcat(before, beforeRaws, [s], [innerRaws], intern, content);
      InputsConcat(before + [s], beforeRaws + [innerRaws], after, afterRaws, intern, content);
      InputsConcat(before, beforeRaws, group, groupRaws, intern, content);
      InputsConcat(before + group, beforeRaws + groupRaws, after, afterRaws, intern, content);
      GroupReplaced(before, beforeRaws, group, groupRaws, after, afterRaws, s, innerRaws);
      nested, nestedRaws, pool' := Merge(before + [s] + after, out, content, intern, beforeRaws + [innerRaws] + afterRaws);
      flat, flatRaws, pool'' := Merge(before + group + after, flatOut, content, intern, beforeRaws + groupRaws + afterRaws);
      if GoodHeaders(before) && GoodHeaders(after) {
        EndAlike(nested, flat, out.Length, pool', pool'', intern, content, before + [s] + after, beforeRaws + [innerRaws] + afterRaws,
                 before + group + after, beforeRaws + groupRaws + afterRaws);
      }
    }
  }
}
