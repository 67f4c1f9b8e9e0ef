/** `jerry_merge_snapshots`: several snapshots become one, with one literal table. */
module SnapshotMerge {
  import opened Words
  import opened Bytes
  import opened CodeBlocks
  import opened SnapshotModel
  import opened SnapshotLiterals
  import opened SnapshotMaps
  import opened SnapshotRelocate
  import opened SnapshotFile
  import opened SnapshotGenerate
  import opened SnapshotLoad

  // ---------------------------------------------------------------- collecting the literals of a snapshot

  /** The pool holds the interned literal of every offset word. */
  predicate InternedIn(pool: seq<Word>, intern: Literal -> Word, table: seq<Byte>, values: seq<RValue>) {
    forall v | v in values :: v.Direct? && IsOffset(v.word) && InTable(table, v.word) ==>
      intern(GetLiteral(table, v.word)) in pool
  }

  ghost predicate ScanCollected(pool: seq<Word>, intern: Literal -> Word, table: seq<Byte>, blocks: seq<RBlock>) {
    forall rb | rb in blocks :: rb.FunctionBlock? ==>
      InternedIn(pool, intern, table, rb.consts) && InternedIn(pool, intern, table, rb.tail)
  }

  /** The word is the interned literal of one of the values. */
  ghost predicate InternedFrom(w: Word, intern: Literal -> Word, table: seq<Byte>, values: seq<RValue>) {
    exists v | v in values :: v.Direct? && IsOffset(v.word) && InTable(table, v.word) && intern(GetLiteral(table, v.word)) == w
  }

  ghost predicate ScannedFrom(w: Word, intern: Literal -> Word, table: seq<Byte>, blocks: seq<RBlock>) {
    exists rb | rb in blocks ::
      rb.FunctionBlock? && (InternedFrom(w, intern, table, rb.consts) || InternedFrom(w, intern, table, rb.tail))
  }

  /** What is new in the pool comes from the values. */
  ghost predicate OnlyInterned(pool: seq<Word>, more: seq<Word>, intern: Literal -> Word, table: seq<Byte>, values: seq<RValue>) {
    forall w | w in more :: w in pool || InternedFrom(w, intern, table, values)
  }

  ghost predicate OnlyScanned(pool: seq<Word>, more: seq<Word>, intern: Literal -> Word, table: seq<Byte>, blocks: seq<RBlock>) {
    forall w | w in more :: w in pool || ScannedFrom(w, intern, table, blocks)
  }

  lemma InternedMore(pool: seq<Word>, r: seq<Word>, intern: Literal -> Word, table: seq<Byte>, values: seq<RValue>, v: RValue)
    requires OnlyInterned(pool, r, intern, table, values)
    requires v.Direct? && IsOffset(v.word) && InTable(table, v.word)
    ensures OnlyInterned(pool, Appended(r, intern(GetLiteral(table, v.word))), intern, table, values + [v])
  {
    hide IsOffset, InTable, GetLiteral;
    assert v in values + [v];
  }

  lemma InternedSame(pool: seq<Word>, r: seq<Word>, intern: Literal -> Word, table: seq<Byte>, values: seq<RValue>, v: RValue)
    requires OnlyInterned(pool, r, intern, table, values)
    ensures OnlyInterned(pool, r, intern, table, values + [v])
  {
    hide IsOffset, InTable, GetLiteral;
  }

  lemma NothingInterned(pool: seq<Word>, intern: Literal -> Word, table: seq<Byte>, values: seq<RValue>)
    ensures OnlyInterned(pool, pool, intern, table, values)
  {
  }

  /** One more block has been scanned, with its constants and its serialisable values. */
  lemma ScannedMore(pool: seq<Word>, r: seq<Word>, most: seq<Word>, more: seq<Word>, intern: Literal -> Word, table: seq<Byte>,
                    blocks: seq<RBlock>, rb: RBlock)
    requires OnlyScanned(pool, r, intern, table, blocks) && rb.FunctionBlock?
    requires OnlyInterned(r, most, intern, table, rb.consts) && OnlyInterned(most, more, intern, table, rb.tail)
    ensures OnlyScanned(pool, more, intern, table, blocks + [rb])
  {
    hide InternedFrom;
    assert rb in blocks + [rb];
  }

  lemma ScannedSame(pool: seq<Word>, r: seq<Word>, intern: Literal -> Word, table: seq<Byte>, blocks: seq<RBlock>, rb: RBlock)
    requires OnlyScanned(pool, r, intern, table, blocks)
    ensures OnlyScanned(pool, r, intern, table, blocks + [rb])
  {
    hide InternedFrom;
  }

  lemma NothingScanned(pool: seq<Word>, intern: Literal -> Word, table: seq<Byte>, blocks: seq<RBlock>)
    ensures OnlyScanned(pool, pool, intern, table, blocks)
  {
  }

  /** The loops of lines 1086-1093 and 1098-1107. */
  method ScanTable(s: seq<Byte>, p: nat, n: nat, table: seq<Byte>, intern: Literal -> Word, pool: seq<Word>,
                   ghost content: Word -> Literal)
    returns (r: seq<Word>)
    requires p + 4 * n <= |s| && AllPoolable(pool)
    requires AllPortable(table, Values(s, p, n, Raw())) && Keeps(intern, content, table, Values(s, p, n, Raw()))
    ensures pool <= r && AllPoolable(r) && InternedIn(r, intern, table, Values(s, p, n, Raw()))
    ensures OnlyInterned(pool, r, intern, table, Values(s, p, n, Raw()))
  {
    hide Get32, AllPoolable, Appended, InTable, GetLiteral, OnlyInterned;
    r := pool;
    NothingInterned(pool, intern, table, []);
    for i := 0 to n
      invariant pool <= r && AllPoolable(r) && OnlyInterned(pool, r, intern, table, Values(s, p, n, Raw())[..i])
      invariant InternedIn(r, intern, table, Values(s, p, n, Raw())[..i])
    {
      var w := WordAt(s, p, i);
      ghost var values := Values(s, p, n, Raw());
      assert Portable(table, values[i]) && values[i] in values;
      assert values[..i + 1] == values[..i] + [values[i]];
      if IsOffset(w) {
        var id := intern(GetLiteral(table, w));
        AppendedKeeps(r, id);
        InternedMore(pool, r, intern, table, values[..i], values[i]);
        r := AppendValue(r, id);
      } else {
        InternedSame(pool, r, intern, table, values[..i], values[i]);
      }
    }
    assert Values(s, p, n, Raw())[..n] == Values(s, p, n, Raw());
  }

  lemma StillCollected(pool: seq<Word>, more: seq<Word>, intern: Literal -> Word, table: seq<Byte>, blocks: seq<RBlock>)
    requires pool <= more && ScanCollected(pool, intern, table, blocks)
    ensures ScanCollected(more, intern, table, blocks)
  {
  }

  /** `scan_snapshot_functions` */
  method ScanFunctions(s: seq<Byte>, start: nat, size: nat, table: seq<Byte>, intern: Literal -> Word, pool: seq<Word>,
                       ghost content: Word -> Literal, ghost blocks: seq<RBlock>)
    returns (r: seq<Word>)
    requires BlocksAt(s, start, Counted(), blocks) && size == BlocksSize(blocks) && size > 0 && NoStatic(blocks)
    requires PortableBlocks(table, blocks) && KeepsAll(intern, content, table, blocks) && AllPoolable(pool)
    ensures pool <= r && AllPoolable(r) && ScanCollected(r, intern, table, blocks)
    ensures OnlyScanned(pool, r, intern, table, blocks)
  {
    hide BlocksAt, AllPoolable, Counted, Get16, InternedIn, OnlyInterned, OnlyScanned, Keeps, AllPortable, BlockSize,
         HeaderSize, ConstCount, TailPos, TailCount, HasHeader;
    var pos, left := start, size;
    ghost var k := 0;
    r := pool;
    assert blocks[0..] == blocks;
    NothingScanned(pool, intern, table, blocks[..0]);
    while left > 0
      invariant k <= |blocks| && 0 <= pos && left == BlocksSize(blocks[k..]) && BlocksAt(s, pos, Counted(), blocks[k..])
      invariant OnlyScanned(pool, r, intern, table, blocks[..k])
      invariant pool <= r && AllPoolable(r) && ScanCollected(r, intern, table, blocks[..k])
    {
      ScanHere(s, pos, blocks, k);
      ghost var rb := blocks[k];
      ScanBlock(s, pos, rb);
      var codeSize := 8 * Get16(s, pos) as int;
      var flags := Get16(s, pos + 4);
      ghost var before := r;
      if IsFunction(flags) && !HasFlag(flags, FLAG_STATIC_FUNCTION) {
        var b := s[pos..pos + codeSize];
        ScanValues(b, rb);
        FieldsInPlace(s, pos, codeSize);
        assert rb in blocks;
        r := ScanTable(s, pos + HeaderSize(b), ConstCount(b), table, intern, r, content);
        ghost var most := r;
        r := ScanTable(s, pos + TailPos(b), TailCount(b), table, intern, r, content);
        StillInterned(most, r, intern, table, rb.consts);
        ScannedMore(pool, before, most, r, intern, table, blocks[..k], rb);
      } else {
        ScannedSame(pool, r, intern, table, blocks[..k], rb);
      }
      StillCollected(before, r, intern, table, blocks[..k]);
      assert blocks[..k + 1] == blocks[..k] + [rb];
      TodoShrinks(s, s, pos, blocks, k, Counted());
      pos, left, k := pos + codeSize, left - codeSize, k + 1;
    }
    ScanHere(s, pos, blocks, k);
    assert blocks[..k] == blocks;
  }

  /** Static functions have their own format and are never merged. */
  ghost predicate NoStatic(blocks: seq<RBlock>) {
    forall rb | rb in blocks :: rb.FunctionBlock? ==> |rb.frame| >= 6 && !HasFlag(Get16(rb.frame, 4), FLAG_STATIC_FUNCTION)
  }

  lemma StillInterned(pool: seq<Word>, more: seq<Word>, intern: Literal -> Word, table: seq<Byte>, values: seq<RValue>)
    requires pool <= more && InternedIn(pool, intern, table, values)
    ensures InternedIn(more, intern, table, values)
  {
  }

  /** What a read-only walk sees of a block. */
  lemma ScanBlock(s: seq<Byte>, pos: nat, rb: RBlock)
    requires pos + BlockSize(rb) <= |s| && Counted()(s[pos..pos + BlockSize(rb)], rb)
    ensures var n := BlockSize(rb);
            && n >= 8 && 8 * Get16(s, pos) as int == n
            && (IsFunction(Get16(s, pos + 4)) <==> rb.FunctionBlock?)
            && (rb.FunctionBlock? ==> Get16(rb.frame, 4) == Get16(s, pos + 4))
  {
    hide FunctionBytes;
    BlockHere(s, pos, rb);
  }

  lemma ScanValues(b: seq<Byte>, rb: RBlock)
    requires rb.FunctionBlock? && Counted()(b, rb)
    ensures FunctionBytes(b) && HeaderSize(b) + 4 * ConstCount(b) <= |b| && TailPos(b) + 4 * TailCount(b) == |b|
    ensures Values(b, HeaderSize(b), ConstCount(b), Raw()) == rb.consts
    ensures Values(b, TailPos(b), TailCount(b), Raw()) == rb.tail
  {
  }

  /** The block that a read-only walk meets after k blocks. */
  lemma {:induction false} ScanHere(s: seq<Byte>, pos: nat, blocks: seq<RBlock>, k: nat)
    requires k <= |blocks| && BlocksAt(s, pos, Counted(), blocks[k..])
    ensures BlocksSize(blocks[k..]) > 0 <==> k < |blocks|
    ensures k < |blocks| ==> pos + BlockSize(blocks[k]) <= |s| && Counted()(s[pos..pos + BlockSize(blocks[k])], blocks[k])
  {
    hide BlocksAt, BlocksSize, BlockSize, Counted, BlockIs;
    var rest := blocks[k..];
    CountedSound();
    NextHere(s, pos, rest, Counted());
    assert k < |blocks| ==> rest[0] == blocks[k];
  }

  // ---------------------------------------------------------------- update_literal_offsets

  /** Lines 1150-1164 and 1169-1185. */
  function UpdateRule(intern: Literal -> Word, table: seq<Byte>): Rule {
    Rule((w: Word) => IsOffset(w), (w: Word) => Interned(intern, table, w))
  }

  function Updated(litMap: seq<MapEntry>, intern: Literal -> Word, table: seq<Byte>): ValueMap {
    Lift(Moved(litMap, UpdateRule(intern, table)))
  }

  method UpdateBlock(buffer: array<Byte>, pos: nat, size: nat, litMap: seq<MapEntry>, table: seq<Byte>, intern: Literal -> Word,
                     ghost rb: RBlock)
    requires rb.FunctionBlock? && size == BlockSize(rb) && pos + size <= buffer.Length
    requires Counted()(buffer[pos..pos + size], rb)
    requires Covered(litMap, UpdateRule(intern, table), rb.consts) && Covered(litMap, UpdateRule(intern, table), rb.tail)
    modifies buffer
    ensures Agree(old(buffer[..]), buffer[..], 0, pos) && Agree(old(buffer[..]), buffer[..], pos + size, buffer.Length)
    ensures var f := Updated(litMap, intern, table); Counted()(buffer[pos..pos + size], MapBlock(rb, f, f))
  {
    hide BlockIs, Covered, MapBlock, FunctionBytes, BlockSize, Get16;
    ghost var t := buffer[..];
    assert t[pos..pos + size] == buffer[pos..pos + size];
    BlockHere(t, pos, rb);
    RelocateBlock(buffer, pos, size, litMap, UpdateRule(intern, table), UpdateRule(intern, table), rb);
    ghost var u, f := buffer[..], Updated(litMap, intern, table);
    assert u[pos..pos + size] == buffer[pos..pos + size];
    MapBlockKind(rb, f, f);
    BlockHere(u, pos, MapBlock(rb, f, f));
    BlockLong(t[pos..pos + size], rb);
    CountKept(t, u, pos, size);
  }

  lemma BlockLong(b: seq<Byte>, rb: RBlock)
    requires rb.FunctionBlock? && BlockIs(b, Raw(), rb)
    ensures |b| >= 16
  {
  }

  lemma CountKept(t: seq<Byte>, u: seq<Byte>, pos: nat, n: nat)
    requires pos + n <= |t| && n >= 16 && Agree(t, u, 0, pos + 16)
    ensures Get16(u[pos..pos + n], 2) == Get16(t[pos..pos + n], 2)
  {
    assert u[pos..pos + n][2] == t[pos..pos + n][2] && u[pos..pos + n][3] == t[pos..pos + n][3];
  }

  /** `update_literal_offsets` */
  method UpdateOffsets(buffer: array<Byte>, start: nat, size: nat, litMap: seq<MapEntry>, table: seq<Byte>,
                       intern: Literal -> Word, ghost blocks: seq<RBlock>)
    requires BlocksAt(buffer[..], start, Counted(), blocks) && size == BlocksSize(blocks) && size > 0 && NoStatic(blocks)
    requires AllCovered(litMap, UpdateRule(intern, table), UpdateRule(intern, table), blocks)
    modifies buffer
    ensures var f := Updated(litMap, intern, table); BlocksAt(buffer[..], start, Counted(), MapBlocks(blocks, f, f))
    ensures Agree(old(buffer[..]), buffer[..], 0, start)
    ensures Agree(old(buffer[..]), buffer[..], start + size, buffer.Length)
  {
    hide BlocksAt, BlockIs, Walking, Covered, MapBlock, BlockSize, Get16, FunctionBytes, Counted, Updated;
    ghost var f := Updated(litMap, intern, table);
    ghost var s, k := buffer[..], 0;
    CountedSound();
    var pos, left := start, size;
    WalkStarts(s, start, blocks, f, f, Counted(), Counted());
    WalkNext(s, s, start, pos, left, blocks, 0, f, f, Counted(), Counted());
    while left > 0
      invariant pos >= 0 && left >= 0 && Walking(s, buffer[..], start, pos, left, blocks, k, f, f, Counted(), Counted())
    {
      ghost var t := buffer[..];
      WalkNext(s, t, start, pos, left, blocks, k, f, f, Counted(), Counted());
      ghost var rb := blocks[k];
      ScanBlock(t, pos, rb);
      var units := Load16(buffer, pos);
      var flags := Load16(buffer, pos + 4);
      var codeSize := 8 * units as int;
      MapBlockKind(rb, f, f);
      assert t[pos..pos + codeSize] == buffer[pos..pos + codeSize];
      assert rb in blocks;
      if IsFunction(flags) && !HasFlag(flags, FLAG_STATIC_FUNCTION) {
        UpdateBlock(buffer, pos, codeSize, litMap, table, intern, rb);
        assert buffer[..][pos..pos + codeSize] == buffer[pos..pos + codeSize];
      }
      WalkStep(s, t, buffer[..], start, pos, left, blocks, k, f, f, Counted(), Counted());
      pos, left, k := pos + codeSize, left - codeSize, k + 1;
    }
    WalkEnds(s, buffer[..], start, pos, blocks, k, f, f, Counted(), Counted());
  }

  lemma CountedSound()
    ensures Sound(Counted())
  {
  }

  // ---------------------------------------------------------------- what an update means

  /** Every lookup of the updating walk stops: the scan has pooled its literal. */
  lemma UpdateCovered(litMap: seq<MapEntry>, pool: seq<Word>, intern: Literal -> Word, table: seq<Byte>, blocks: seq<RBlock>)
    requires MapOf(litMap, pool) && ScanCollected(pool, intern, table, blocks) && PortableBlocks(table, blocks)
    ensures AllCovered(litMap, UpdateRule(intern, table), UpdateRule(intern, table), blocks)
  {
    hide InMap, InTable, GetLiteral;
    forall rb | rb in blocks && rb.FunctionBlock?
      ensures Covered(litMap, UpdateRule(intern, table), rb.consts) && Covered(litMap, UpdateRule(intern, table), rb.tail)
    {
      ValuesCovered(litMap, pool, intern, table, rb.consts);
      ValuesCovered(litMap, pool, intern, table, rb.tail);
    }
  }

  lemma ValuesCovered(litMap: seq<MapEntry>, pool: seq<Word>, intern: Literal -> Word, table: seq<Byte>, values: seq<RValue>)
    requires MapOf(litMap, pool) && InternedIn(pool, intern, table, values) && AllPortable(table, values)
    ensures Covered(litMap, UpdateRule(intern, table), values)
  {
    hide InMap, InTable, GetLiteral;
    forall v | v in values && IsOffset(v.word)
      ensures InMap(litMap, Interned(intern, table, v.word))
    {
      assert Portable(table, v);
      InMapIffInPool(litMap, pool, Interned(intern, table, v.word));
    }
  }

  /** A word of an input and the word that replaces it resolve to the same value, each through its own table. */
  lemma {:induction false} UpdateMeans(litMap: seq<MapEntry>, pool: seq<Word>, intern: Literal -> Word, content: Word -> Literal,
                    table: seq<Byte>, newTable: seq<Byte>, v: RValue)
    requires forall id | id in pool :: TableResolver(newTable)(OffsetOf(litMap, id)) == Stored(Truncated(content(id)))
    requires Portable(table, v)
    requires IsOffset(v.word) ==> InternedIn(pool, intern, table, [v]) && Keeps(intern, content, table, [v])
    ensures Resolving(TableResolver(newTable))(Updated(litMap, intern, table)(v)) == Resolving(TableResolver(table))(v)
    ensures Portable(newTable, Updated(litMap, intern, table)(v))
  {
    hide OffsetOf, InTable, GetLiteral;
    if IsOffset(v.word) {
      assert v in [v];
      ShortAlready(table, v.word);
    }
  }

  /** What comes out of a table is short enough to go into one. */
  lemma ShortAlready(table: seq<Byte>, w: Word)
    requires InTable(table, w)
    ensures Truncated(GetLiteral(table, w)) == GetLiteral(table, w)
  {
    SurvivesExactly(GetLiteral(table, w));
  }

  lemma PartOf(values: seq<RValue>, v: RValue, pool: seq<Word>, intern: Literal -> Word, content: Word -> Literal, table: seq<Byte>)
    requires v in values && InternedIn(pool, intern, table, values) && Keeps(intern, content, table, values)
    ensures InternedIn(pool, intern, table, [v]) && Keeps(intern, content, table, [v])
  {
  }

  /** The updated blocks mean what the blocks meant, and they are portable again. */
  lemma {:induction false} UpdatedBlocks(litMap: seq<MapEntry>, pool: seq<Word>, intern: Literal -> Word, content: Word -> Literal,
                      table: seq<Byte>, newTable: seq<Byte>, blocks: seq<RBlock>)
    requires forall id | id in pool :: TableResolver(newTable)(OffsetOf(litMap, id)) == Stored(Truncated(content(id)))
    requires ScanCollected(pool, intern, table, blocks) && PortableBlocks(table, blocks)
    requires KeepsAll(intern, content, table, blocks)
    ensures var f, g, h := Updated(litMap, intern, table), Resolving(TableResolver(newTable)), Resolving(TableResolver(table));
            SameOn(blocks, Then(f, g), Then(f, g), h, h) && PortableBlocks(newTable, MapBlocks(blocks, f, f))
  {
    hide OffsetOf, TableResolver, Updated, Portable, InternedIn, Keeps;
    var f, g, h := Updated(litMap, intern, table), Resolving(TableResolver(newTable)), Resolving(TableResolver(table));
    forall rb, v | rb in blocks && rb.FunctionBlock? && (v in rb.consts || v in rb.tail)
      ensures g(f(v)) == h(v) && Portable(newTable, f(v))
    {
      PartOf(if v in rb.consts then rb.consts else rb.tail, v, pool, intern, content, table);
      UpdateMeans(litMap, pool, intern, content, table, newTable, v);
    }
    var moved := MapBlocks(blocks, f, f);
    forall rb | rb in moved && rb.FunctionBlock?
      ensures AllPortable(newTable, rb.consts) && AllPortable(newTable, rb.tail)
    {
      var i :| 0 <= i < |moved| && moved[i] == rb;
      assert blocks[i] in blocks;
      ValuesPortable(newTable, blocks[i].consts, f);
      ValuesPortable(newTable, blocks[i].tail, f);
    }
    assert forall i | 0 <= i < |blocks| :: blocks[i] in blocks;
  }

  // ---------------------------------------------------------------- jerry_merge_snapshots

  datatype MergeResult = Merged(size: nat) | TooFew | InvalidFile | InvalidVersion | OutputTooSmall | LiteralsTooLarge

  function TableOf(s: seq<Byte>): seq<Byte> {
    if |s| >= HEADER_SIZE && TableField(s) as int <= |s| then Table(s) else []
  }

  /** What the engine and the producer of an input guarantee once its header is accepted. */
  ghost predicate GoodInput(s: seq<Byte>, raws: seq<RCode>, intern: Literal -> Word, content: Word -> Literal) {
    GoodHeader(s) ==>
      SnapshotIs(s, raws) && NoStatic(FlattenAll(raws)) && KeepsAll(intern, content, TableOf(s), FlattenAll(raws))
  }

  /** The total size of the code areas of the first n inputs. */
  function AreaSum(raws: seq<seq<RCode>>, n: nat): nat
    requires n <= |raws|
  {
    if n == 0 then 0 else AreaSum(raws, n - 1) + SubsSize(raws[n - 1])
  }

  function CountSum(raws: seq<seq<RCode>>, n: nat): nat
    requires n <= |raws|
  {
    if n == 0 then 0 else CountSum(raws, n - 1) + |raws[n - 1]|
  }

  lemma {:induction false} SumsNext(raws: seq<seq<RCode>>, n: nat)
    requires n < |raws|
    ensures AreaSum(raws, n + 1) == AreaSum(raws, n) + SubsSize(raws[n])
    ensures CountSum(raws, n + 1) == CountSum(raws, n) + |raws[n]|
  {
  }

  lemma {:induction false} SumsZero(raws: seq<seq<RCode>>)
    ensures AreaSum(raws, 0) == 0 && CountSum(raws, 0) == 0
  {
  }

  function FlagsOf(s: seq<Byte>): nat {
    if |s| >= HEADER_SIZE then FlagsField(s) else 0
  }

  function FlagsUnion(inputs: seq<seq<Byte>>, n: nat): nat
    requires n <= |inputs|
  {
    if n == 0 then 0 else Or(FlagsUnion(inputs, n - 1), FlagsOf(inputs[n - 1]))
  }

  lemma {:induction false} FlagsStaySmall(inputs: seq<seq<Byte>>, n: nat)
    requires n <= |inputs| && forall i | 0 <= i < n :: GoodHeader(inputs[i])
    ensures FlagsUnion(inputs, n) < 4
  {
    if n > 0 {
      hide Get32;
      FlagsStaySmall(inputs, n - 1);
      assert GoodHeader(inputs[n - 1]);
      OrBound(FlagsUnion(inputs, n - 1), FlagsOf(inputs[n - 1]), 2);
    }
  }

  /** Every function takes at least one byte, so there are not more functions than bytes. */
  lemma {:induction false} CountBounded(raws: seq<RCode>)
    requires forall j | 0 <= j < |raws| :: CodeSize(raws[j]) >= 1
    ensures |raws| <= SubsSize(raws)
  {
    if raws != [] {
      CountBounded(raws[1..]);
    }
  }

  lemma {:induction false} FunctionsHaveBytes(s: seq<Byte>, pos: nat, raws: seq<RCode>)
    requires BlocksAt(s, pos, Counted(), FlattenAll(raws)) && forall j | 0 <= j < |raws| :: raws[j].RFunction?
    ensures |raws| <= SubsSize(raws)
  {
    hide BlocksAt, FlattenAll, CodeSize, SubsSize, Counted;
    forall j | 0 <= j < |raws|
      ensures CodeSize(raws[j]) >= 1
    {
      ChildStored(s, pos, Counted(), raws, j);
      FunctionSize(s, pos + SubsSize(raws[..j]), raws[j]);
    }
    CountBounded(raws);
  }

  lemma {:induction false} FunctionSize(s: seq<Byte>, pos: nat, raw: RCode)
    requires raw.RFunction? && StoredAt(s, pos, Counted(), raw)
    ensures CodeSize(raw) >= 1
  {
    hide BlocksAt, Flatten, Counted;
    OwnBlockFirst(raw);
    BlocksAtFirst(s, pos, Counted(), Flatten(raw));
    ScanBlock(s, pos, OwnBlock(raw));
  }

  /** The pool holds exactly the interned literals of the first n inputs, each once. */
  ghost predicate PoolOf(pool: seq<Word>, intern: Literal -> Word, inputs: seq<seq<Byte>>, raws: seq<seq<RCode>>, n: nat)
    requires n <= |inputs| == |raws|
  {
    && AllPoolable(pool)
    && (forall i | 0 <= i < n :: ScanCollected(pool, intern, TableOf(inputs[i]), FlattenAll(raws[i])))
    && forall w | w in pool :: exists i | 0 <= i < n :: ScannedFrom(w, intern, TableOf(inputs[i]), FlattenAll(raws[i]))
  }

  lemma NoPool(intern: Literal -> Word, inputs: seq<seq<Byte>>, raws: seq<seq<RCode>>)
    requires |inputs| == |raws|
    ensures PoolOf([], intern, inputs, raws, 0)
  {
  }

  lemma PoolNext(pool: seq<Word>, more: seq<Word>, intern: Literal -> Word, inputs: seq<seq<Byte>>, raws: seq<seq<RCode>>, n: nat)
    requires n < |inputs| == |raws| && PoolOf(pool, intern, inputs, raws, n) && pool <= more && AllPoolable(more)
    requires ScanCollected(more, intern, TableOf(inputs[n]), FlattenAll(raws[n]))
    requires OnlyScanned(pool, more, intern, TableOf(inputs[n]), FlattenAll(raws[n]))
    ensures PoolOf(more, intern, inputs, raws, n + 1)
  {
    hide ScannedFrom, ScanCollected, AllPoolable, TableOf, FlattenAll;
    forall j | 0 <= j < n
      ensures ScanCollected(more, intern, TableOf(inputs[j]), FlattenAll(raws[j]))
    {
      StillCollected(pool, more, intern, TableOf(inputs[j]), FlattenAll(raws[j]));
    }
  }

  /** The first half: headers are checked, sizes summed up, literals collected. */
  method ScanInputs(inputs: seq<seq<Byte>>, intern: Literal -> Word, ghost content: Word -> Literal, ghost raws: seq<seq<RCode>>)
    returns (error: MergeResult, count: Word, flags: nat, size: nat, pool: seq<Word>)
    requires |raws| == |inputs| && forall i | 0 <= i < |inputs| :: GoodInput(inputs[i], raws[i], intern, content)
    ensures error.InvalidFile? || error.InvalidVersion? || error.Merged?
    ensures error.Merged? <==> forall i | 0 <= i < |inputs| :: GoodHeader(inputs[i])
    ensures error.InvalidFile? ==>
      exists i | 0 <= i < |inputs| :: |inputs[i]| < HEADER_SIZE && forall j | 0 <= j < i :: GoodHeader(inputs[j])
    ensures error.Merged? ==>
      && count == CountSum(raws, |inputs|) % 0x1_0000_0000 && flags == FlagsUnion(inputs, |inputs|)
      && size == HEADER_SIZE + AreaSum(raws, |inputs|) && CountSum(raws, |inputs|) <= AreaSum(raws, |inputs|)
      && PoolOf(pool, intern, inputs, raws, |inputs|)
  {
    hide GoodInput, AllPoolable, ScanCollected, OnlyScanned, PoolOf, SubsSize, FlattenAll, Or, GoodHeader, Get32, TableOf, AreaSum, CountSum;
    SumsZero(raws);
    error, count, flags, size, pool := Merged(0), 0, 0, HEADER_SIZE, [];
    EmptyPool();
    NoPool(intern, inputs, raws);
    for i := 0 to |inputs|
      invariant forall j | 0 <= j < i :: GoodHeader(inputs[j])
      invariant count == CountSum(raws, i) % 0x1_0000_0000 && flags == FlagsUnion(inputs, i)
      invariant size == HEADER_SIZE + AreaSum(raws, i) && CountSum(raws, i) <= AreaSum(raws, i)
      invariant AllPoolable(pool) && PoolOf(pool, intern, inputs, raws, i)
    {
      var s := inputs[i];
      if |s| < HEADER_SIZE {
        NotGood(s);
        return InvalidFile, count, flags, size, pool;
      }
      if MagicField(s) != MAGIC || VersionField(s) != VERSION || !CheckGlobalFlags(FlagsField(s)) {
        NotGood(s);
        return MergeResult.InvalidVersion, count, flags, size, pool;
      }
      IsGood(s);
      SumsNext(raws, i);
      ghost var before := pool;
      flags := Or(flags, FlagsField(s));
      var area;
      area, pool := ScanInput(s, intern, pool, content, raws[i]);
      count := Wrap(count + CountField(s));
      size := size + area;
      PoolNext(before, pool, intern, inputs, raws, i);
    }
  }

  /** Lines 1242-1251, for one input. */
  method ScanInput(s: seq<Byte>, intern: Literal -> Word, pool: seq<Word>, ghost content: Word -> Literal, ghost raws: seq<RCode>)
    returns (area: nat, r: seq<Word>)
    requires GoodHeader(s) && GoodInput(s, raws, intern, content) && AllPoolable(pool)
    ensures area == SubsSize(raws) && |s| >= HEADER_SIZE && CountField(s) == |raws| <= area
    ensures pool <= r && AllPoolable(r) && ScanCollected(r, intern, TableOf(s), FlattenAll(raws))
    ensures OnlyScanned(pool, r, intern, TableOf(s), FlattenAll(raws))
  {
    hide BlocksAt, Counted, PortableBlocks, SnapshotIs, AllPoolable, ScanCollected, SubsSize, FlattenAll, NoStatic, KeepsAll, Get32,
         BlocksSize;
    InputFacts(s, raws);
    var start := OffsetField(s, 0) as int;
    area := TableField(s) as int - start;
    r := ScanFunctions(s, start, area, Table(s), intern, pool, content, FlattenAll(raws));
  }

  lemma NotGood(s: seq<Byte>)
    requires |s| < HEADER_SIZE || MagicField(s) != MAGIC || VersionField(s) != VERSION || !CheckGlobalFlags(FlagsField(s))
    ensures !GoodHeader(s)
  {
  }

  lemma IsGood(s: seq<Byte>)
    requires |s| >= HEADER_SIZE && MagicField(s) == MAGIC && VersionField(s) == VERSION && CheckGlobalFlags(FlagsField(s))
    ensures GoodHeader(s)
  {
  }

  /** What the two loops over the inputs use of a snapshot. */
  lemma {:induction false} InputFacts(s: seq<Byte>, raws: seq<RCode>)
    requires SnapshotIs(s, raws)
    ensures |s| >= HEADER_SIZE && raws != [] && CountField(s) == |raws| <= SubsSize(raws) && TableField(s) as int <= |s|
    ensures OffsetField(s, 0) as int + SubsSize(raws) == TableField(s) as int
    ensures TableOf(s) == Table(s) == s[TableField(s)..]
    ensures BlocksAt(s, OffsetField(s, 0), Counted(), FlattenAll(raws)) && BlocksSize(FlattenAll(raws)) == SubsSize(raws)
    ensures PortableBlocks(Table(s), FlattenAll(raws))
    ensures HEADER_SIZE + 4 * (|raws| - 1) <= OffsetField(s, 0) as int
    ensures forall j | 0 <= j < |raws| :: raws[j].RFunction?
    ensures forall j | 0 <= j < |raws| :: OffsetField(s, j) as int == OffsetField(s, 0) as int + SubsSize(raws[..j])
  {
    hide BlocksAt, Counted, PortableBlocks, FlattenAll, SubsSize, BlocksSize, Get32;
    FlattenAllSize(raws);
    FunctionsHaveBytes(s, OffsetField(s, 0), raws);
  }

  // ---------------------------------------------------------------- one input in its place

  /** Lines 1309-1313: the header offsets of an input, rebased. */
  method StoreOffsets(out: array<Byte>, p: nat, s: seq<Byte>, n: nat, current: Word)
    requires p + 4 * n <= out.Length && HEADER_SIZE + 4 * (n - 1) <= |s|
    modifies out
    ensures Agree(old(out[..]), out[..], 0, p) && Agree(old(out[..]), out[..], p + 4 * n, out.Length)
    ensures forall j | 0 <= j < n :: WordAt(out[..], p, j) == Wrap(OffsetField(s, j) + current)
  {
    hide Put32, Get32;
    ghost var u := out[..];
    for j := 0 to n
      invariant Agree(u, out[..], 0, p) && Agree(u, out[..], p + 4 * n, out.Length)
      invariant forall i | 0 <= i < j :: WordAt(out[..], p, i) == Wrap(OffsetField(s, i) + current)
    {
      ghost var t := out[..];
      var w := Wrap(OffsetField(s, j) + current);
      Store32(out, p + 4 * j, w);
      WordStored(t, p, n, j, w);
      StoreInside(u, t, p, n, j, w);
    }
  }

  /** The trees of an input, with the words that refer to the merged table. */
  function UpdatedTrees(s: seq<Byte>, raws: seq<RCode>, litMap: seq<MapEntry>, intern: Literal -> Word): seq<RCode> {
    var f := Updated(litMap, intern, TableOf(s));
    MapTrees(raws, f, f)
  }

  /** Lines 1295-1305: the code area of an input is copied and its words are updated. */
  method PlaceArea(out: array<Byte>, dst: nat, s: seq<Byte>, litMap: seq<MapEntry>, intern: Literal -> Word, ghost raws: seq<RCode>)
    requires SnapshotIs(s, raws) && NoStatic(FlattenAll(raws)) && dst + SubsSize(raws) <= out.Length
    requires var rule := UpdateRule(intern, TableOf(s)); AllCovered(litMap, rule, rule, FlattenAll(raws))
    modifies out
    ensures BlocksAt(out[..], dst, Counted(), FlattenAll(UpdatedTrees(s, raws, litMap, intern)))
    ensures Agree(old(out[..]), out[..], 0, dst) && Agree(old(out[..]), out[..], dst + SubsSize(raws), out.Length)
  {
    hide SnapshotIs, BlocksAt, Counted, FlattenAll, SubsSize, BlocksSize, NoStatic, AllCovered, Splice, Get32, Updated, MapTrees,
         PortableBlocks;
    ghost var b0 := out[..];
    InputFacts(s, raws);
    var start := OffsetField(s, 0) as int;
    var size := TableField(s) as int - start;
    var area := s[start..start + size];
    CopyInto(out, dst, area);
    ghost var b1 := out[..];
    SpliceAgrees(b0, dst, area);
    AreaCopied(s, start, b0, dst, area, FlattenAll(raws));
    UpdateOffsets(out, dst, size, litMap, Table(s), intern, FlattenAll(raws));
    FlattenAllMap(raws, Updated(litMap, intern, Table(s)), Updated(litMap, intern, Table(s)));
    AgreeThen(b0, b1, out[..], 0, dst, 0, dst);
    AgreeThen(b0, b1, out[..], dst + size, |b0|, dst + size, |b0|);
  }

  /** Lines 1293-1315: an input is put in its place and its offsets are rebased. */
  method PlaceInput(out: array<Byte>, dst: nat, k: nat, s: seq<Byte>, litMap: seq<MapEntry>, intern: Literal -> Word,
                    ghost raws: seq<RCode>)
    requires SnapshotIs(s, raws) && NoStatic(FlattenAll(raws)) && out.Length < 0x1_0000_0000
    requires dst + SubsSize(raws) <= out.Length && 20 + 4 * (k + |raws|) <= dst
    requires var rule := UpdateRule(intern, TableOf(s)); AllCovered(litMap, rule, rule, FlattenAll(raws))
    modifies out
    ensures BlocksAt(out[..], dst, Counted(), FlattenAll(UpdatedTrees(s, raws, litMap, intern)))
    ensures Agree(old(out[..]), out[..], 0, 20 + 4 * k) && Agree(old(out[..]), out[..], 20 + 4 * (k + |raws|), dst)
    ensures Agree(old(out[..]), out[..], dst + SubsSize(raws), out.Length)
    ensures forall j | 0 <= j < |raws| :: WordAt(out[..], 20 + 4 * k, j) as int == dst + SubsSize(raws[..j])
  {
    hide SnapshotIs, BlocksAt, Counted, FlattenAll, SubsSize, BlocksSize, NoStatic, AllCovered, Get32, Updated, MapTrees,
         PortableBlocks, UpdatedTrees;
    ghost var b0 := out[..];
    InputFacts(s, raws);
    var start, n := OffsetField(s, 0) as int, CountField(s) as int;
    PlaceArea(out, dst, s, litMap, intern, raws);
    ghost var b2 := out[..];
    var p, current := 20 + 4 * k, Wrap(dst - start);
    StoreOffsets(out, p, s, n, current);
    ghost var b3 := out[..];
    AgreeThen(b0, b2, b3, 0, dst, 0, p);
    AgreeThen(b0, b2, b3, 0, dst, p + 4 * n, |b0|);
    AgreeThen(b0, b2, b3, dst + SubsSize(raws), |b0|, p + 4 * n, |b0|);
    ghost var placed := UpdatedTrees(s, raws, litMap, intern);
    UpdatedSize(s, raws, litMap, intern);
    BlocksFit(b2, dst, Counted(), FlattenAll(placed));
    BlocksKept(b2, b3, dst, Counted(), FlattenAll(placed));
    forall j | 0 <= j < |raws|
      ensures WordAt(b3, p, j) as int == dst + SubsSize(raws[..j])
    {
      SubsSizeWithin(raws, j);
      Rebased(start, dst, SubsSize(raws[..j]));
    }
  }

  lemma {:induction false} UpdatedSize(s: seq<Byte>, raws: seq<RCode>, litMap: seq<MapEntry>, intern: Literal -> Word)
    ensures var placed := UpdatedTrees(s, raws, litMap, intern);
            |placed| == |raws| && SubsSize(placed) == SubsSize(raws) == BlocksSize(FlattenAll(placed))
  {
    MapTreesSize(raws, Updated(litMap, intern, TableOf(s)), Updated(litMap, intern, TableOf(s)));
    FlattenAllSize(UpdatedTrees(s, raws, litMap, intern));
  }

  lemma {:induction false} AreaCopied(s: seq<Byte>, start: nat, b: seq<Byte>, dst: nat, area: seq<Byte>, blocks: seq<RBlock>)
    requires BlocksAt(s, start, Counted(), blocks) && start + BlocksSize(blocks) <= |s|
    requires area == s[start..start + BlocksSize(blocks)] && dst + |area| <= |b|
    ensures BlocksAt(Splice(b, dst, area), dst, Counted(), blocks)
  {
    BlocksAtFrame(s, start, Splice(b, dst, area), dst, Counted(), blocks);
  }

  lemma {:induction false} SubsSizeWithin(raws: seq<RCode>, j: nat)
    requires j <= |raws|
    ensures SubsSize(raws[..j]) <= SubsSize(raws)
  {
    FlattenAllConcat(raws[..j], raws[j..]);
    assert raws[..j] + raws[j..] == raws;
  }

  /** Offsets are rebased modulo 2^32; the result is in range, so it is exact. */
  lemma Rebased(start: nat, dst: nat, offset: nat)
    requires start < 0x1_0000_0000 && dst + offset < 0x1_0000_0000
    ensures Wrap(start + offset + Wrap(dst - start)) == dst + offset
  {
  }

  // ---------------------------------------------------------------- all inputs in their places

  function MergedTrees(inputs: seq<seq<Byte>>, raws: seq<seq<RCode>>, litMap: seq<MapEntry>, intern: Literal -> Word, n: nat)
    : seq<RCode>
    requires n <= |inputs| == |raws|
  {
    if n == 0 then []
    else MergedTrees(inputs, raws, litMap, intern, n - 1) + UpdatedTrees(inputs[n - 1], raws[n - 1], litMap, intern)
  }

  /** The meanings of the primary functions of a snapshot. */
  function FunctionsOf(s: seq<Byte>, raws: seq<RCode>): seq<RCode> {
    var h := Resolving(TableResolver(TableOf(s)));
    MapTrees(raws, h, h)
  }

  function AllFunctions(inputs: seq<seq<Byte>>, raws: seq<seq<RCode>>, n: nat): seq<RCode>
    requires n <= |inputs| == |raws|
  {
    if n == 0 then [] else AllFunctions(inputs, raws, n - 1) + FunctionsOf(inputs[n - 1], raws[n - 1])
  }

  lemma {:induction false} MapTreesConcat(a: seq<RCode>, b: seq<RCode>, f: ValueMap, h: ValueMap)
    ensures MapTrees(a + b, f, h) == MapTrees(a, f, h) + MapTrees(b, f, h)
  {
    hide MapTree;
    if a == [] {
      assert a + b == b;
    } else {
      MapTreesConcat(a[1..], b, f, h);
      assert (a + b)[1..] == a[1..] + b && (a + b)[0] == a[0];
      var x, y, z := [MapTree(a[0], f, h)], MapTrees(a[1..], f, h), MapTrees(b, f, h);
      assert x + (y + z) == (x + y) + z;
    }
  }

  /** The updated trees of an input mean through the merged table what the input means. */
  ghost predicate Translated(s: seq<Byte>, raws: seq<RCode>, litMap: seq<MapEntry>, intern: Literal -> Word, newTable: seq<Byte>) {
    var m, g := UpdatedTrees(s, raws, litMap, intern), Resolving(TableResolver(newTable));
    MapTrees(m, g, g) == FunctionsOf(s, raws) && PortableBlocks(newTable, FlattenAll(m))
  }

  /** The merged functions, read through the merged table, are the functions of the inputs in order. */
  lemma {:induction false} MergedMeans(inputs: seq<seq<Byte>>, raws: seq<seq<RCode>>, litMap: seq<MapEntry>,
                                       intern: Literal -> Word, newTable: seq<Byte>, n: nat)
    requires n <= |inputs| == |raws|
    requires forall i | 0 <= i < n :: Translated(inputs[i], raws[i], litMap, intern, newTable)
    ensures var m, g := MergedTrees(inputs, raws, litMap, intern, n), Resolving(TableResolver(newTable));
            MapTrees(m, g, g) == AllFunctions(inputs, raws, n) && PortableBlocks(newTable, FlattenAll(m))
    decreases n
  {
    hide TableResolver, FlattenAll, PortableBlocks, MapTrees, Resolving, UpdatedTrees, FunctionsOf, TableOf;
    if n == 0 {
      NothingMeans(newTable);
    } else {
      MergedMeans(inputs, raws, litMap, intern, newTable, n - 1);
      assert Translated(inputs[n - 1], raws[n - 1], litMap, intern, newTable);
      MeansConcat(newTable, MergedTrees(inputs, raws, litMap, intern, n - 1),
                  UpdatedTrees(inputs[n - 1], raws[n - 1], litMap, intern));
    }
  }

  lemma NothingMeans(table: seq<Byte>)
    ensures MapTrees([], Resolving(TableResolver(table)), Resolving(TableResolver(table))) == []
    ensures PortableBlocks(table, FlattenAll([]))
  {
  }

  lemma {:induction false} MeansConcat(table: seq<Byte>, a: seq<RCode>, b: seq<RCode>)
    requires PortableBlocks(table, FlattenAll(a)) && PortableBlocks(table, FlattenAll(b))
    ensures var g := Resolving(TableResolver(table)); MapTrees(a + b, g, g) == MapTrees(a, g, g) + MapTrees(b, g, g)
    ensures PortableBlocks(table, FlattenAll(a + b))
  {
    hide PortableBlocks, FlattenAll, MapTrees;
    MapTreesConcat(a, b, Resolving(TableResolver(table)), Resolving(TableResolver(table)));
    FlattenAllConcat(a, b);
    PortableConcat(table, FlattenAll(a), FlattenAll(b));
  }

  lemma {:induction false} InputMeans(s: seq<Byte>, raws: seq<RCode>, litMap: seq<MapEntry>, pool: seq<Word>,
                   intern: Literal -> Word, content: Word -> Literal, newTable: seq<Byte>)
    requires forall id | id in pool :: TableResolver(newTable)(OffsetOf(litMap, id)) == Stored(Truncated(content(id)))
    requires SnapshotIs(s, raws) && KeepsAll(intern, content, TableOf(s), FlattenAll(raws))
    requires ScanCollected(pool, intern, TableOf(s), FlattenAll(raws))
    ensures Translated(s, raws, litMap, intern, newTable)
  {
    hide OffsetOf, TableResolver, SnapshotIs, KeepsAll, ScanCollected, FlattenAll, PortableBlocks, MapTrees, Updated, SameOn;
    InputFacts(s, raws);
    var table := TableOf(s);
    UpdatedBlocks(litMap, pool, intern, content, table, newTable, FlattenAll(raws));
    var f, g, h := Updated(litMap, intern, table), Resolving(TableResolver(newTable)), Resolving(TableResolver(table));
    MapTreesThen(raws, f, f, g, h, h);
    FlattenAllMap(raws, f, f);
  }

  lemma PortableConcat(table: seq<Byte>, a: seq<RBlock>, b: seq<RBlock>)
    requires PortableBlocks(table, a) && PortableBlocks(table, b)
    ensures PortableBlocks(table, a + b)
  {
  }

  lemma {:induction false} NoTrees(inputs: seq<seq<Byte>>, raws: seq<seq<RCode>>, litMap: seq<MapEntry>, intern: Literal -> Word)
    requires |inputs| == |raws|
    ensures MergedTrees(inputs, raws, litMap, intern, 0) == []
  {
  }

  lemma {:induction false} MergedNext(inputs: seq<seq<Byte>>, raws: seq<seq<RCode>>, litMap: seq<MapEntry>, intern: Literal -> Word, n: nat)
    requires n < |inputs| == |raws|
    ensures MergedTrees(inputs, raws, litMap, intern, n + 1)
         == MergedTrees(inputs, raws, litMap, intern, n) + UpdatedTrees(inputs[n], raws[n], litMap, intern)
  {
  }

  lemma {:induction false} MergedSizes(inputs: seq<seq<Byte>>, raws: seq<seq<RCode>>, litMap: seq<MapEntry>,
                                       intern: Literal -> Word, n: nat)
    requires n <= |inputs| == |raws|
    ensures var m := MergedTrees(inputs, raws, litMap, intern, n); |m| == CountSum(raws, n) && SubsSize(m) == AreaSum(raws, n)
    decreases n
  {
    hide UpdatedTrees, SubsSize;
    if n == 0 {
      NoSize();
    } else {
      MergedSizes(inputs, raws, litMap, intern, n - 1);
      MergedSizesNext(MergedTrees(inputs, raws, litMap, intern, n - 1), inputs[n - 1], raws[n - 1], litMap, intern);
    }
  }

  lemma {:induction false} MergedSizesNext(m: seq<RCode>, s: seq<Byte>, raws: seq<RCode>, litMap: seq<MapEntry>, intern: Literal -> Word)
    ensures var all := m + UpdatedTrees(s, raws, litMap, intern);
            |all| == |m| + |raws| && SubsSize(all) == SubsSize(m) + SubsSize(raws)
  {
    UpdatedSize(s, raws, litMap, intern);
    FlattenAllConcat(m, UpdatedTrees(s, raws, litMap, intern));
  }

  lemma {:induction false} SumsGrow(raws: seq<seq<RCode>>, n: nat, all: nat)
    requires n <= all <= |raws|
    ensures CountSum(raws, n) <= CountSum(raws, all) && AreaSum(raws, n) <= AreaSum(raws, all)
    decreases all - n
  {
    if n < all {
      SumsGrow(raws, n + 1, all);
    }
  }

  /** The functions m lie at dst and the header words from byte 20 on lead to them; the rest is as it was. */
  ghost predicate Placed(before: seq<Byte>, out: seq<Byte>, dst: nat, tableStart: nat, m: seq<RCode>) {
    && Agree(before, out, 0, 20) && Agree(before, out, tableStart, |before|)
    && 20 + 4 * |m| <= dst && dst + SubsSize(m) <= tableStart <= |out|
    && BlocksAt(out, dst, Counted(), FlattenAll(m))
    && forall j | 0 <= j < |m| :: WordAt(out, 20, j) as int == dst + SubsSize(m[..j])
  }

  lemma NothingPlaced(before: seq<Byte>, dst: nat, tableStart: nat)
    requires 20 <= dst <= tableStart <= |before|
    ensures Placed(before, before, dst, tableStart, [])
  {
  }

  lemma {:induction false} PlacedNext(before: seq<Byte>, out: seq<Byte>, more: seq<Byte>, dst: nat, tableStart: nat, m: seq<RCode>,
                   next: nat, k: nat, s: seq<Byte>, raws: seq<RCode>, litMap: seq<MapEntry>, intern: Literal -> Word)
    requires Placed(before, out, dst, tableStart, m) && next == dst + SubsSize(m) && k == |m|
    requires 20 + 4 * (k + |raws|) <= dst && next + SubsSize(raws) <= tableStart
    requires BlocksAt(more, next, Counted(), FlattenAll(UpdatedTrees(s, raws, litMap, intern)))
    requires Agree(out, more, 0, 20 + 4 * k) && Agree(out, more, 20 + 4 * (k + |raws|), next)
    requires Agree(out, more, next + SubsSize(raws), |out|)
    requires forall j | 0 <= j < |raws| :: WordAt(more, 20 + 4 * k, j) as int == next + SubsSize(raws[..j])
    ensures Placed(before, more, dst, tableStart, m + UpdatedTrees(s, raws, litMap, intern))
  {
    hide BlocksAt, FlattenAll, SubsSize, UpdatedTrees, Counted, Get32, BlocksSize;
    var placed := UpdatedTrees(s, raws, litMap, intern);
    UpdatedSize(s, raws, litMap, intern);
    FlattenAllConcat(m, placed);
    FlattenAllSize(m);
    AgreeThen(before, out, more, 0, 20, 0, 20 + 4 * k);
    AgreeThen(before, out, more, tableStart, |before|, next + SubsSize(raws), |out|);
    BlocksKept(out, more, dst, Counted(), FlattenAll(m));
    BlocksAtConcat(more, dst, Counted(), FlattenAll(m), FlattenAll(placed));
    TableKept(out, more, 20, |m|);
    forall j | 0 <= j < |m + placed|
      ensures WordAt(more, 20, j) as int == dst + SubsSize((m + placed)[..j])
    {
      if j < |m| {
        assert (m + placed)[..j] == m[..j];
      } else {
        assert WordAt(more, 20, j) == WordAt(more, 20 + 4 * |m|, j - |m|);
        OffsetsConcat(m, s, raws, litMap, intern, j - |m|);
      }
    }
  }

  lemma {:induction false} OffsetsConcat(m: seq<RCode>, s: seq<Byte>, raws: seq<RCode>, litMap: seq<MapEntry>, intern: Literal -> Word, j: nat)
    requires j <= |raws|
    ensures |UpdatedTrees(s, raws, litMap, intern)| == |raws|
    ensures SubsSize((m + UpdatedTrees(s, raws, litMap, intern))[..|m| + j]) == SubsSize(m) + SubsSize(raws[..j])
  {
    var placed, f := UpdatedTrees(s, raws, litMap, intern), Updated(litMap, intern, TableOf(s));
    hide MapTrees, SubsSize, FlattenAll, Updated;
    assert (m + placed)[..|m| + j] == m + placed[..j];
    FlattenAllConcat(m, placed[..j]);
    MapTreesConcat(raws[..j], raws[j..], f, f);
    assert raws[..j] + raws[j..] == raws;
    assert placed[..j] == MapTrees(raws[..j], f, f);
    MapTreesSize(raws[..j], f, f);
  }

  // ---------------------------------------------------------------- the merged snapshot

  /** Lines 1265-1271: the header without the function offsets. */
  function MergedHeader(s: seq<Byte>, flags: Word, tableStart: Word, count: Word): seq<Byte>
    requires |s| >= HEADER_SIZE
  {
    Put32(Put32(Put32(Put32(Put32(s, 0, MAGIC), 4, VERSION), 8, flags), 12, tableStart), 16, count)
  }

  lemma MergedHeaderFields(s: seq<Byte>, flags: Word, tableStart: Word, count: Word)
    requires |s| >= HEADER_SIZE
    ensures var t := MergedHeader(s, flags, tableStart, count);
            && |t| == |s| && MagicField(t) == MAGIC && VersionField(t) == VERSION && FlagsField(t) == flags
            && TableField(t) == tableStart && CountField(t) == count
  {
    var t0 := Put32(s, 0, MAGIC);
    var t1 := Put32(t0, 4, VERSION);
    var t2 := Put32(t1, 8, flags);
    var t3 := Put32(t2, 12, tableStart);
    hide Put32, Get32;
    FieldStays(s, 0, MAGIC);
    FieldStays(t0, 4, VERSION);
    FieldStays(t1, 8, flags);
    FieldStays(t2, 12, tableStart);
    FieldStays(t3, 16, count);
  }

  method WriteMergedHeader(out: array<Byte>, flags: Word, tableStart: Word, count: Word)
    requires out.Length >= HEADER_SIZE
    modifies out
    ensures out[..] == MergedHeader(old(out[..]), flags, tableStart, count)
  {
    hide Put32;
    Store32(out, 0, MAGIC);
    Store32(out, 4, VERSION);
    Store32(out, 8, flags);
    Store32(out, 12, tableStart);
    Store32(out, 16, count);
  }

  lemma HeaderKept(t: seq<Byte>, out: seq<Byte>, end: nat)
    requires 24 <= end <= |out| && Agree(t, out, 0, 20)
    ensures var u := out[..end];
            && MagicField(u) == MagicField(t) && VersionField(u) == VersionField(t) && FlagsField(u) == FlagsField(t)
            && TableField(u) == TableField(t) && CountField(u) == CountField(t)
  {
    var u := out[..end];
    assert forall k | 0 <= k < 20 :: u[k] == out[k] == t[k];
  }

  lemma OffsetsKept(out: seq<Byte>, end: nat, n: nat)
    requires 20 + 4 * n <= end <= |out|
    ensures forall j | 0 <= j < n :: OffsetField(out[..end], j) == WordAt(out, 20, j)
  {
    var u := out[..end];
    forall j | 0 <= j < n
      ensures OffsetField(u, j) == WordAt(out, 20, j)
    {
      var p := 20 + 4 * j;
      assert u[p..p + 4] == out[p..p + 4];
      SameGet(u, p, out, p, 4);
    }
  }

  /** The finished output is a snapshot. */
  lemma {:induction false} MergedAssembled(header: seq<Byte>, before: seq<Byte>, out: seq<Byte>, dst: nat, tableStart: Word, end: nat, m: seq<RCode>)
    requires |header| >= HEADER_SIZE && Agree(header, before, 0, tableStart) && Placed(before, out, dst, tableStart, m)
    requires MagicField(header) == MAGIC && VersionField(header) == VERSION && FlagsField(header) < 4
    requires TableField(header) == tableStart && CountField(header) == |m| && m != []
    requires HEADER_SIZE <= tableStart as int <= end <= |out| && dst + SubsSize(m) == tableStart as int
    requires AllFunctional(m) && PortableBlocks(before[tableStart..end], FlattenAll(m))
    ensures SnapshotIs(out[..end], m) && TableOf(out[..end]) == before[tableStart..end]
  {
    hide BlocksAt, FlattenAll, SubsSize, Counted, PortableBlocks, Get32, BlocksSize;
    var s := out[..end];
    AgreeThen(header, before, out, 0, tableStart, 0, 20);
    HeaderKept(header, out, end);
    OffsetsKept(out, end, |m|);
    FlattenAllSize(m);
    PrefixHolds(out, end, dst, Counted(), FlattenAll(m));
    assert m[..0] == [];
    assert SubsSize(m[..0]) == 0 by {
      NoSize();
    }
    assert s[tableStart..] == out[tableStart..end];
    AgreeSlice(before, out, tableStart, end);
  }

  lemma NoSize()
    ensures SubsSize([]) == 0
  {
  }

  predicate AllFunctional(codes: seq<RCode>) {
    forall j | 0 <= j < |codes| :: codes[j].RFunction?
  }

  lemma {:induction false} MergedFunctions(inputs: seq<seq<Byte>>, raws: seq<seq<RCode>>, litMap: seq<MapEntry>,
                                           intern: Literal -> Word, n: nat)
    requires n <= |inputs| == |raws|
    requires forall i | 0 <= i < n :: AllFunctional(raws[i])
    ensures AllFunctional(MergedTrees(inputs, raws, litMap, intern, n))
    decreases n
  {
    if n > 0 {
      MergedFunctions(inputs, raws, litMap, intern, n - 1);
      assert AllFunctional(raws[n - 1]);
      UpdatedFunctions(inputs[n - 1], raws[n - 1], litMap, intern);
    }
  }

  lemma UpdatedFunctions(s: seq<Byte>, raws: seq<RCode>, litMap: seq<MapEntry>, intern: Literal -> Word)
    requires AllFunctional(raws)
    ensures AllFunctional(UpdatedTrees(s, raws, litMap, intern))
  {
    var f := Updated(litMap, intern, TableOf(s));
    forall j | 0 <= j < |raws|
      ensures MapTrees(raws, f, f)[j].RFunction?
    {
      MapTreesAt(raws, f, f, j);
    }
  }

  /** `functions_size` of line 1256. */
  function FunctionsSize(raws: seq<seq<RCode>>): int {
    HEADER_SIZE + AreaSum(raws, |raws|) + AlignUp8(if CountSum(raws, |raws|) > 0 then 4 * (CountSum(raws, |raws|) - 1) else 0)
  }

  /** The second half: with the literals saved, all inputs are put in their places. */
  method PlaceInputs(inputs: seq<seq<Byte>>, out: array<Byte>, dst0: nat, tableStart: nat, litMap: seq<MapEntry>,
                     intern: Literal -> Word, ghost raws: seq<seq<RCode>>)
    requires |raws| == |inputs| && tableStart <= out.Length < 0x1_0000_0000
    requires forall i | 0 <= i < |inputs| :: SnapshotIs(inputs[i], raws[i]) && NoStatic(FlattenAll(raws[i]))
    requires forall i | 0 <= i < |inputs| ::
      var rule := UpdateRule(intern, TableOf(inputs[i])); AllCovered(litMap, rule, rule, FlattenAll(raws[i]))
    requires 20 + 4 * CountSum(raws, |raws|) <= dst0 && dst0 + AreaSum(raws, |raws|) == tableStart
    modifies out
    ensures Placed(old(out[..]), out[..], dst0, tableStart, MergedTrees(inputs, raws, litMap, intern, |inputs|))
  {
    hide SnapshotIs, NoStatic, AllCovered, Placed, BlocksAt, FlattenAll, SubsSize, UpdatedTrees, Get32, Agree, PortableBlocks,
         BlocksSize, Counted, UpdateRule, WordAt, AreaSum, CountSum, MergedTrees;
    SumsZero(raws);
    ghost var before := out[..];
    NothingPlaced(before, dst0, tableStart);
    assert MergedTrees(inputs, raws, litMap, intern, 0) == [] by {
      NoTrees(inputs, raws, litMap, intern);
    }
    var dst, k := dst0, 0;
    for i := 0 to |inputs|
      invariant dst == dst0 + AreaSum(raws, i) && k == CountSum(raws, i)
      invariant Placed(before, out[..], dst0, tableStart, MergedTrees(inputs, raws, litMap, intern, i))
    {
      var s := inputs[i];
      ghost var b, m := out[..], MergedTrees(inputs, raws, litMap, intern, i);
      SumsGrow(raws, i + 1, |raws|);
      SumsNext(raws, i);
      MergedNext(inputs, raws, litMap, intern, i);
      MergedSizes(inputs, raws, litMap, intern, i);
      InputFacts(s, raws[i]);
      PlaceInput(out, dst, k, s, litMap, intern, raws[i]);
      PlacedNext(before, b, out[..], dst0, tableStart, m, dst, k, s, raws[i], litMap, intern);
      k := k + CountField(s) as int;
      dst := dst + (TableField(s) as int - OffsetField(s, 0) as int);
    }
  }

  // ---------------------------------------------------------------- the output is an input again

  /** The engine hands back the content of these literals under the word it interns them as. */
  ghost predicate Storable(intern: Literal -> Word, content: Word -> Literal, values: seq<RValue>) {
    forall v | v in values && v.Stored? :: Poolable(intern(v.literal)) && content(intern(v.literal)) == v.literal
  }

  ghost predicate StorableAll(intern: Literal -> Word, content: Word -> Literal, blocks: seq<RBlock>) {
    forall rb | rb in blocks :: rb.FunctionBlock? ==> Storable(intern, content, rb.consts) && Storable(intern, content, rb.tail)
  }

  /** What a merge asks of its inputs, said of their functions. */
  ghost predicate Mergeable(intern: Literal -> Word, content: Word -> Literal, codes: seq<RCode>) {
    NoStatic(FlattenAll(codes)) && StorableAll(intern, content, FlattenAll(codes))
  }

  lemma ValuesStorable(intern: Literal -> Word, content: Word -> Literal, table: seq<Byte>, values: seq<RValue>)
    requires AllPortable(table, values)
    ensures Storable(intern, content, MapValues(values, Resolving(TableResolver(table)))) <==> Keeps(intern, content, table, values)
  {
    hide IsOffset, InTable, GetLiteral, Poolable;
    var g := Resolving(TableResolver(table));
    assert forall i | 0 <= i < |values| :: values[i] in values && Portable(table, values[i]);
    assert forall i | 0 <= i < |values| :: MapValues(values, g)[i] in MapValues(values, g);
  }

  lemma BlocksStorable(intern: Literal -> Word, content: Word -> Literal, table: seq<Byte>, blocks: seq<RBlock>)
    requires PortableBlocks(table, blocks)
    ensures var g := Resolving(TableResolver(table));
            StorableAll(intern, content, MapBlocks(blocks, g, g)) <==> KeepsAll(intern, content, table, blocks)
  {
    hide AllPortable, Keeps, Storable, MapValues;
    var g := Resolving(TableResolver(table));
    var moved := MapBlocks(blocks, g, g);
    forall i | 0 <= i < |blocks| && blocks[i].FunctionBlock?
      ensures Storable(intern, content, moved[i].consts) <==> Keeps(intern, content, table, blocks[i].consts)
      ensures Storable(intern, content, moved[i].tail) <==> Keeps(intern, content, table, blocks[i].tail)
    {
      assert blocks[i] in blocks;
      ValuesStorable(intern, content, table, blocks[i].consts);
      ValuesStorable(intern, content, table, blocks[i].tail);
    }
    assert forall i | 0 <= i < |blocks| :: blocks[i] in blocks && moved[i] in moved;
  }

  lemma StaticMapped(blocks: seq<RBlock>, f: ValueMap, h: ValueMap)
    ensures NoStatic(MapBlocks(blocks, f, h)) <==> NoStatic(blocks)
  {
    hide MapValues, HasFlag, Get16;
    var moved := MapBlocks(blocks, f, h);
    assert forall i | 0 <= i < |blocks| :: blocks[i] in blocks && moved[i] in moved;
  }

  /** A snapshot may be merged if and only if its functions may. */
  lemma {:induction false} MergeableExactly(s: seq<Byte>, raws: seq<RCode>, intern: Literal -> Word, content: Word -> Literal)
    requires SnapshotIs(s, raws)
    ensures GoodInput(s, raws, intern, content) <==> Mergeable(intern, content, FunctionsOf(s, raws))
  {
    hide SnapshotIs, NoStatic, FlattenAll, KeepsAll, StorableAll, PortableBlocks, MapTrees, MapBlocks, TableResolver;
    InputFacts(s, raws);
    assert GoodHeader(s) by {
      SnapshotHeader(s, raws);
    }
    var g := Resolving(TableResolver(TableOf(s)));
    FlattenAllMap(raws, g, g);
    BlocksStorable(intern, content, TableOf(s), FlattenAll(raws));
    StaticMapped(FlattenAll(raws), g, g);
  }

  lemma SnapshotHeader(s: seq<Byte>, raws: seq<RCode>)
    requires SnapshotIs(s, raws)
    ensures GoodHeader(s)
  {
  }

  lemma {:induction false} MergeableConcat(intern: Literal -> Word, content: Word -> Literal, a: seq<RCode>, b: seq<RCode>)
    requires Mergeable(intern, content, a) && Mergeable(intern, content, b)
    ensures Mergeable(intern, content, a + b)
  {
    hide FlattenAll, Storable, HasFlag, Get16;
    FlattenAllConcat(a, b);
  }

  lemma NothingMergeable(intern: Literal -> Word, content: Word -> Literal)
    ensures Mergeable(intern, content, [])
  {
    hide Storable, HasFlag, Get16;
    assert FlattenAll([]) == [];
  }

  lemma {:induction false} AllMergeable(inputs: seq<seq<Byte>>, raws: seq<seq<RCode>>, intern: Literal -> Word, content: Word -> Literal, n: nat)
    requires n <= |inputs| == |raws|
    requires forall i | 0 <= i < n :: SnapshotIs(inputs[i], raws[i]) && GoodInput(inputs[i], raws[i], intern, content)
    ensures Mergeable(intern, content, AllFunctions(inputs, raws, n))
    decreases n
  {
    hide SnapshotIs, GoodInput, Mergeable, FunctionsOf;
    if n == 0 {
      NothingMergeable(intern, content);
    } else {
      AllMergeable(inputs, raws, intern, content, n - 1);
      MergeableExactly(inputs[n - 1], raws[n - 1], intern, content);
      MergeableConcat(intern, content, AllFunctions(inputs, raws, n - 1), FunctionsOf(inputs[n - 1], raws[n - 1]));
    }
  }

  /** The functions of good inputs make a good input. */
  lemma {:induction false} OutputGood(inputs: seq<seq<Byte>>, raws: seq<seq<RCode>>, intern: Literal -> Word, content: Word -> Literal,
                                      s: seq<Byte>, merged: seq<RCode>)
    requires |inputs| == |raws| && SnapshotIs(s, merged) && FunctionsOf(s, merged) == AllFunctions(inputs, raws, |inputs|)
    requires forall i | 0 <= i < |inputs| :: SnapshotIs(inputs[i], raws[i]) && GoodInput(inputs[i], raws[i], intern, content)
    ensures GoodInput(s, merged, intern, content)
  {
    hide SnapshotIs, GoodInput, Mergeable, FunctionsOf, AllFunctions;
    AllMergeable(inputs, raws, intern, content, |inputs|);
    MergeableExactly(s, merged, intern, content);
  }

  // ---------------------------------------------------------------- the merge itself

  /** Everything that the second half needs to know about one input. */
  lemma {:induction false} InputReady(s: seq<Byte>, raws: seq<RCode>, litMap: seq<MapEntry>, pool: seq<Word>, intern: Literal -> Word,
                   content: Word -> Literal, newTable: seq<Byte>)
    requires GoodHeader(s) && GoodInput(s, raws, intern, content)
    requires ScanCollected(pool, intern, TableOf(s), FlattenAll(raws)) && MapOf(litMap, pool)
    requires forall id | id in pool :: TableResolver(newTable)(OffsetOf(litMap, id)) == Stored(Truncated(content(id)))
    ensures SnapshotIs(s, raws) && NoStatic(FlattenAll(raws)) && AllFunctional(raws) && |raws| >= 1
    ensures var rule := UpdateRule(intern, TableOf(s)); AllCovered(litMap, rule, rule, FlattenAll(raws))
    ensures Translated(s, raws, litMap, intern, newTable)
  {
    hide SnapshotIs, NoStatic, FlattenAll, TableResolver, OffsetOf, ScanCollected, AllCovered, Translated, KeepsAll, PortableBlocks,
         GoodHeader, MapOf, BlocksAt;
    InputFacts(s, raws);
    UpdateCovered(litMap, pool, intern, TableOf(s), FlattenAll(raws));
    InputMeans(s, raws, litMap, pool, intern, content, newTable);
  }

  lemma {:induction false} CountPositive(raws: seq<seq<RCode>>, n: nat)
    requires n <= |raws| && forall i | 0 <= i < n :: |raws[i]| >= 1
    ensures CountSum(raws, n) >= n
  {
    if n > 0 {
      CountPositive(raws, n - 1);
    }
  }

  /** `jerry_merge_snapshots`. The output is a snapshot whose functions are those of the first input, then those
      of the second, and so on, each with the meaning it has in its input. */
  method MergeSnapshots(inputs: seq<seq<Byte>>, out: array<Byte>, content: Word -> Literal, intern: Literal -> Word,
                        ghost raws: seq<seq<RCode>>)
    returns (result: MergeResult, ghost merged: seq<RCode>, ghost pool: seq<Word>)
    requires |raws| == |inputs| && GoodContent(content) && out.Length < 0x1_0000_0000
    requires forall i | 0 <= i < |inputs| :: GoodInput(inputs[i], raws[i], intern, content)
    modifies out
    ensures result.TooFew? <==> |inputs| < 2
    ensures result.InvalidFile? || result.InvalidVersion? <==>
              |inputs| >= 2 && exists i | 0 <= i < |inputs| :: !GoodHeader(inputs[i])
    ensures result.OutputTooSmall? <==>
              |inputs| >= 2 && (forall i | 0 <= i < |inputs| :: GoodHeader(inputs[i])) && FunctionsSize(raws) >= out.Length
    ensures result.LiteralsTooLarge? || result.Merged? ==> PoolOf(pool, intern, inputs, raws, |inputs|)
    ensures result.LiteralsTooLarge? ==>
      TableSize(Contents(pool, content)) > Smaller(out.Length - FunctionsSize(raws), MAXIMUM_TABLE_SIZE)
    ensures result.Merged? ==>
      TableSize(Contents(pool, content)) <= Smaller(out.Length - FunctionsSize(raws), MAXIMUM_TABLE_SIZE)
    ensures result.Merged? ==> result.size == FunctionsSize(raws) + TableSize(Contents(pool, content))
    ensures !result.Merged? && !result.LiteralsTooLarge? ==> out[..] == old(out[..])
    ensures result.Merged? ==> result.size <= out.Length && SnapshotIs(out[..result.size], merged)
    ensures result.Merged? ==> FunctionsOf(out[..result.size], merged) == AllFunctions(inputs, raws, |inputs|)
    ensures result.Merged? ==> GoodInput(out[..result.size], merged, intern, content)
  {
    hide SnapshotIs, NoStatic, FlattenAll, TableResolver, OffsetOf, ScanCollected, AllCovered, Translated, GoodInput, GoodHeader,
         Mapped, TableSize, AllPoolable, MapOf, TableOf, GoodContent, MergedTrees, AllFunctions, AreaSum, CountSum, FlagsUnion,
         FunctionsOf, FunctionsSize, PoolOf, Placed, StorableAll, MergedHeader, PortableBlocks, MapTrees, SubsSize, Get32, UpdateRule, Wrap;
    merged, pool := [], [];
    if |inputs| < 2 {
      return TooFew, merged, pool;
    }
    var error, count, flags, size, literals := ScanInputs(inputs, intern, content, raws);
    pool := literals;
    if !error.Merged? {
      return error, merged, pool;
    }
    PoolParts(pool, intern, inputs, raws);
    var tableStart := size + AlignUp8(4 * Wrap(count as int - 1));
    RawsNonempty(inputs, raws, intern, content);
    CountPositive(raws, |raws|);
    SizesExact(raws, count, size, out.Length);
    if tableStart >= out.Length {
      return OutputTooSmall, merged, pool;
    }
    FlagsStaySmall(inputs, |inputs|);
    MergedHeaderFields(out[..], flags, tableStart, count);
    WriteMergedHeader(out, flags, tableStart, count);
    ghost var header := out[..];
    PoolIsPoolable(pool);
    var ok, end, litMap := SaveLiterals(literals, content, out, tableStart);
    if !ok {
      return LiteralsTooLarge, merged, pool;
    }
    ghost var before := out[..];
    ghost var newTable := before[tableStart..end];
    merged := MergedTrees(inputs, raws, litMap, intern, |inputs|);
    InputsReady(inputs, raws, litMap, pool, intern, content, before, tableStart, end);
    var dst := HEADER_SIZE + AlignUp8(4 * Wrap(count as int - 1));
    PlaceInputs(inputs, out, dst, tableStart, litMap, intern, raws);
    MergedMeans(inputs, raws, litMap, intern, newTable, |inputs|);
    MergedSizes(inputs, raws, litMap, intern, |inputs|);
    MergedFunctions(inputs, raws, litMap, intern, |inputs|);
    MergedAssembled(header, before, out[..], dst, tableStart, end, merged);
    assert out[..][..end] == out[..end];
    FunctionsAre(out[..end], merged, newTable);
    OutputGood(inputs, raws, intern, content, out[..end], merged);
    return Merged(end), merged, pool;
  }

  lemma PoolParts(pool: seq<Word>, intern: Literal -> Word, inputs: seq<seq<Byte>>, raws: seq<seq<RCode>>)
    requires |inputs| == |raws| && PoolOf(pool, intern, inputs, raws, |inputs|)
    ensures AllPoolable(pool)
    ensures forall i | 0 <= i < |inputs| :: ScanCollected(pool, intern, TableOf(inputs[i]), FlattenAll(raws[i]))
  {
  }

  lemma {:induction false} FunctionsAre(s: seq<Byte>, raws: seq<RCode>, table: seq<Byte>)
    requires TableOf(s) == table
    ensures FunctionsOf(s, raws) == MapTrees(raws, Resolving(TableResolver(table)), Resolving(TableResolver(table)))
  {
  }

  lemma RawsNonempty(inputs: seq<seq<Byte>>, raws: seq<seq<RCode>>, intern: Literal -> Word, content: Word -> Literal)
    requires |raws| == |inputs|
    requires forall i | 0 <= i < |inputs| :: GoodHeader(inputs[i]) && GoodInput(inputs[i], raws[i], intern, content)
    ensures forall i | 0 <= i < |raws| :: |raws[i]| >= 1
  {
    hide GoodHeader, NoStatic, KeepsAll, BlocksAt, PortableBlocks;
    forall i | 0 <= i < |raws|
      ensures |raws[i]| >= 1
    {
      assert GoodInput(inputs[i], raws[i], intern, content);
    }
  }

  lemma InputsReady(inputs: seq<seq<Byte>>, raws: seq<seq<RCode>>, litMap: seq<MapEntry>, pool: seq<Word>,
                    intern: Literal -> Word, content: Word -> Literal, before: seq<Byte>, tableStart: nat, end: nat)
    requires |raws| == |inputs| && GoodContent(content) && AllPoolable(pool) && |litMap| == |pool|
    requires forall i | 0 <= i < |inputs| :: GoodHeader(inputs[i]) && GoodInput(inputs[i], raws[i], intern, content)
    requires forall i | 0 <= i < |inputs| :: ScanCollected(pool, intern, TableOf(inputs[i]), FlattenAll(raws[i]))
    requires Mapped(before, tableStart, pool, content, litMap, |pool|)
    requires tableStart + TableSize(Contents(pool, content)) == end <= |before|
    ensures forall i | 0 <= i < |inputs| :: SnapshotIs(inputs[i], raws[i]) && NoStatic(FlattenAll(raws[i]))
    ensures forall i | 0 <= i < |inputs| :: AllFunctional(raws[i])
    ensures forall i | 0 <= i < |inputs| ::
      var rule := UpdateRule(intern, TableOf(inputs[i])); AllCovered(litMap, rule, rule, FlattenAll(raws[i]))
    ensures forall i | 0 <= i < |inputs| :: Translated(inputs[i], raws[i], litMap, intern, before[tableStart..end])
  {
    hide SnapshotIs, NoStatic, FlattenAll, TableResolver, OffsetOf, ScanCollected, AllCovered, Translated, GoodInput, GoodHeader,
         Mapped, TableSize, AllPoolable, MapOf, TableOf, GoodContent;
    var newTable := before[tableStart..end];
    MapIds(before, tableStart, pool, content, litMap);
    forall id | id in pool
      ensures TableResolver(newTable)(OffsetOf(litMap, id)) == Stored(Truncated(content(id)))
    {
      MapLeads(before, tableStart, end, pool, content, litMap, id);
    }
    forall i | 0 <= i < |inputs|
      ensures SnapshotIs(inputs[i], raws[i]) && NoStatic(FlattenAll(raws[i])) && AllFunctional(raws[i])
      ensures var rule := UpdateRule(intern, TableOf(inputs[i])); AllCovered(litMap, rule, rule, FlattenAll(raws[i]))
      ensures Translated(inputs[i], raws[i], litMap, intern, newTable)
    {
      InputReady(inputs[i], raws[i], litMap, pool, intern, content, newTable);
    }
  }

  /** The 32-bit count of functions only wraps around when the output is too small anyway. */
  lemma {:induction false} SizesExact(raws: seq<seq<RCode>>, count: Word, size: nat, limit: nat)
    requires size == HEADER_SIZE + AreaSum(raws, |raws|) && 1 <= CountSum(raws, |raws|) <= AreaSum(raws, |raws|)
    requires count as int == CountSum(raws, |raws|) % 0x1_0000_0000 && limit < 0x1_0000_0000
    ensures FunctionsSize(raws) >= limit <==> size + AlignUp8(4 * Wrap(count as int - 1)) >= limit
    ensures FunctionsSize(raws) < limit ==> count as int == CountSum(raws, |raws|)
    ensures FunctionsSize(raws) < limit ==> FunctionsSize(raws) == size + AlignUp8(4 * Wrap(count as int - 1))
    ensures FunctionsSize(raws) < limit ==> 20 + 4 * CountSum(raws, |raws|) <= FunctionsSize(raws) - AreaSum(raws, |raws|)
  {
    hide AreaSum, CountSum;
    var n := CountSum(raws, |raws|);
    if AreaSum(raws, |raws|) < limit {
      ModUnique(n, 0x1_0000_0000, 0, n);
      WrapNoop(n - 1);
    }
  }
}
