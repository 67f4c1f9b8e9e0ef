/** `jerry_generate_snapshot`: compiled code and the literals it uses become a snapshot. */
module SnapshotGenerate {
  import opened Words
  import opened Bytes
  import opened CodeBlocks
  import opened SnapshotModel
  import opened SnapshotSave
  import opened SnapshotLiterals
  import opened SnapshotMaps
  import opened SnapshotRelocate
  import opened SnapshotFile

  // ---------------------------------------------------------------- collecting literals

  function Appended(pool: seq<Word>, w: Word): seq<Word> {
    if !Poolable(w) || w in pool then pool else pool + [w]
  }

  /** `ecma_save_literals_append_value` */
  method AppendValue(pool: seq<Word>, w: Word) returns (r: seq<Word>)
    ensures r == Appended(pool, w)
  {
    if !Poolable(w) {
      return pool;
    }
    for i := 0 to |pool|
      invariant w !in pool[..i]
    {
      if pool[i] == w {
        return pool;
      }
    }
    assert pool[..|pool|] == pool;
    return pool + [w];
  }

  predicate AllPoolable(pool: seq<Word>) {
    (forall w | w in pool :: Poolable(w)) && forall i, j | 0 <= i < j < |pool| :: pool[i] != pool[j]
  }

  predicate InPool(pool: seq<Word>, values: seq<RValue>) {
    forall v | v in values :: v.Direct? && Poolable(v.word) ==> v.word in pool
  }

  /** Every literal of the blocks is in the pool. */
  ghost predicate Collected(pool: seq<Word>, blocks: seq<RBlock>) {
    forall rb | rb in blocks :: rb.FunctionBlock? ==> InPool(pool, rb.consts) && InPool(pool, rb.tail)
  }

  /** The four loops over words, each of this form. */
  method AppendTable(b: seq<Byte>, p: nat, n: nat, pool: seq<Word>) returns (r: seq<Word>)
    requires p + 4 * n <= |b| && AllPoolable(pool)
    ensures pool <= r && AllPoolable(r) && InPool(r, Values(b, p, n, Raw()))
  {
    hide Get32, AllPoolable, Poolable, Appended;
    r := pool;
    for i := 0 to n
      invariant pool <= r && AllPoolable(r)
      invariant forall j | 0 <= j < i :: Poolable(WordAt(b, p, j)) ==> WordAt(b, p, j) in r
    {
      AppendedKeeps(r, WordAt(b, p, i));
      r := AppendValue(r, WordAt(b, p, i));
    }
  }

  lemma AppendedKeeps(pool: seq<Word>, w: Word)
    requires AllPoolable(pool)
    ensures pool <= Appended(pool, w) && AllPoolable(Appended(pool, w))
    ensures Poolable(w) ==> w in Appended(pool, w)
  {
  }

  /** `ecma_save_literals_add_compiled_code`. The first loop reads the argument names where an earlier layout
      kept them; it can only add to the pool. */
  method CollectLiterals(c: Code, pool: seq<Word>) returns (r: seq<Word>)
    requires GoodCode(c) && c.Function? && AllPoolable(pool)
    ensures pool <= r && AllPoolable(r) && Collected(r, Flatten(Meaning(c, Raw())))
    decreases c
  {
    hide AllPoolable, InPool, Meaning, MeaningAll, Flatten, Collected;
    var b := c.bytes;
    ghost var kids := MeaningAll(c.subs, Raw());
    r := pool;
    if HasFlag(Flags(b), FLAG_MAPPED_ARGUMENTS) {
      r := AppendTable(b, HeaderSize(b), ArgumentEnd(b), r);
    }
    r := AppendTable(b, HeaderSize(b), ConstCount(b), r);
    ghost var own := r;
    NothingCollected(r, kids);
    for i := 0 to |c.subs|
      invariant own <= r && AllPoolable(r) && Collected(r, FlattenAll(kids[..i]))
    {
      ghost var before := r;
      MeaningAt(c.subs, Raw(), i);
      if c.subs[i].Function? {
        r := CollectLiterals(c.subs[i], r);
      } else {
        LeafCollected(c.subs[i], r);
      }
      CollectedNext(before, r, kids, i);
    }
    ghost var most := r;
    r := AppendTable(b, TailPos(b), TailCount(b), r);
    assert kids[..|c.subs|] == kids;
    CollectedFunction(c, own, most, r);
  }

  lemma NothingCollected(pool: seq<Word>, kids: seq<RCode>)
    ensures Collected(pool, FlattenAll(kids[..0]))
  {
    assert kids[..0] == [];
  }

  lemma {:induction false} LeafCollected(c: Code, pool: seq<Word>)
    requires GoodCode(c) && !c.Function?
    ensures Collected(pool, Flatten(Meaning(c, Raw())))
  {
  }

  lemma CollectedNext(before: seq<Word>, pool: seq<Word>, kids: seq<RCode>, i: nat)
    requires i < |kids| && before <= pool
    requires Collected(before, FlattenAll(kids[..i])) && Collected(pool, Flatten(kids[i]))
    ensures Collected(pool, FlattenAll(kids[..i + 1]))
  {
    NextKid(kids, i);
  }

  lemma {:induction false} CollectedFunction(c: Code, own: seq<Word>, most: seq<Word>, pool: seq<Word>)
    requires GoodCode(c) && c.Function? && own <= most <= pool
    requires InPool(own, Values(c.bytes, HeaderSize(c.bytes), ConstCount(c.bytes), Raw()))
    requires Collected(most, FlattenAll(MeaningAll(c.subs, Raw())))
    requires InPool(pool, Values(c.bytes, TailPos(c.bytes), TailCount(c.bytes), Raw()))
    ensures Collected(pool, Flatten(Meaning(c, Raw())))
  {
    hide FlattenAll, MeaningAll;
    var r := Meaning(c, Raw());
    assert Flatten(r) == [Flatten(r)[0]] + FlattenAll(r.subs);
  }

  // ---------------------------------------------------------------- what the map leads to

  predicate ConstOk(w: Word) {
    !IsOffset(w)
  }

  predicate TailOk(w: Word) {
    w == VALUE_EMPTY || IsString(w)
  }

  /** What the parser produces: constants are engine values, serialisable values are strings or empty. */
  ghost predicate Parsed(blocks: seq<RBlock>) {
    forall rb | rb in blocks :: rb.FunctionBlock? ==>
      (forall v | v in rb.consts :: v.Direct? && ConstOk(v.word)) && (forall v | v in rb.tail :: v.Direct? && TailOk(v.word))
  }

  /** No constant is BigInt zero, which is not a stored literal but still looked up. */
  ghost predicate NoBigIntZero(blocks: seq<RBlock>) {
    forall rb | rb in blocks :: rb.FunctionBlock? ==> Direct(BIGINT_ZERO) !in rb.consts
  }

  predicate MapOf(litMap: seq<MapEntry>, pool: seq<Word>) {
    |litMap| == |pool| && forall i | 0 <= i < |pool| :: litMap[i].id == pool[i]
  }

  lemma InMapIffInPool(litMap: seq<MapEntry>, pool: seq<Word>, id: Word)
    requires MapOf(litMap, pool)
    ensures InMap(litMap, id) <==> id in pool
  {
    if id in pool {
      var i :| 0 <= i < |pool| && pool[i] == id;
      assert litMap[i] in litMap;
    }
  }

  /** Every lookup of the offset-setting walk stops inside the map if and only if no constant is BigInt zero. */
  lemma LookupsStopExactly(litMap: seq<MapEntry>, pool: seq<Word>, blocks: seq<RBlock>)
    requires MapOf(litMap, pool) && AllPoolable(pool) && Collected(pool, blocks) && Parsed(blocks)
    ensures AllCovered(litMap, SetConst(), SetTail(), blocks) <==> NoBigIntZero(blocks)
  {
    hide InMap;
    InMapIffInPool(litMap, pool, BIGINT_ZERO);
    if NoBigIntZero(blocks) {
      forall rb | rb in blocks && rb.FunctionBlock?
        ensures Covered(litMap, SetConst(), rb.consts) && Covered(litMap, SetTail(), rb.tail)
      {
        BlockCovered(litMap, pool, rb.consts, rb.tail);
      }
    } else {
      var rb :| rb in blocks && rb.FunctionBlock? && Direct(BIGINT_ZERO) in rb.consts;
      assert !Covered(litMap, SetConst(), rb.consts);
    }
  }

  lemma BlockCovered(litMap: seq<MapEntry>, pool: seq<Word>, consts: seq<RValue>, tail: seq<RValue>)
    requires MapOf(litMap, pool) && InPool(pool, consts) && InPool(pool, tail)
    requires (forall v | v in consts :: v.Direct?) && (forall v | v in tail :: v.Direct? && TailOk(v.word))
    requires Direct(BIGINT_ZERO) !in consts
    ensures Covered(litMap, SetConst(), consts) && Covered(litMap, SetTail(), tail)
  {
    forall v | v in consts && SetConst().needs(v.word)
      ensures InMap(litMap, v.word)
    {
      InMapIffInPool(litMap, pool, v.word);
    }
    forall v | v in tail && SetTail().needs(v.word)
      ensures InMap(litMap, v.word)
    {
      InMapIffInPool(litMap, pool, v.word);
    }
  }

  lemma {:induction false} OffsetOfEntry(litMap: seq<MapEntry>, id: Word)
    requires InMap(litMap, id)
    ensures exists entry | entry in litMap :: entry == MapEntry(id, OffsetOf(litMap, id))
  {
    if litMap[0].id == id {
      assert litMap[0] in litMap;
    } else {
      OffsetOfEntry(litMap[1..], id);
      var entry :| entry in litMap[1..] && entry == MapEntry(id, OffsetOf(litMap[1..], id));
      assert entry in litMap;
    }
  }

  lemma {:induction false} EntryLeads(s: seq<Byte>, start: nat, end: nat, all: seq<Literal>, i: nat, id: Word, entry: MapEntry)
    requires EntryMapped(s, start, all, i, id, entry) && GoodLiteral(all[i]) && start + TableSize(all) == end <= |s|
    ensures TableResolver(s[start..end])(entry.offset) == Stored(Truncated(all[i]))
  {
    hide EntryAt, InTable, GetLiteral, OffsetWord, TableSize;
    TableSizeNext(all, i);
    TableSizeGrows(all, i + 1);
    EntryInTable(s, start, end, TableSize(all[..i]), all[i]);
    EntryReads(s[start..end], TableSize(all[..i]), all[i]);
  }

  lemma MapIds(s: seq<Byte>, start: nat, pool: seq<Word>, content: Word -> Literal, litMap: seq<MapEntry>)
    requires |litMap| == |pool| && Mapped(s, start, pool, content, litMap, |pool|)
    ensures MapOf(litMap, pool)
  {
    forall i | 0 <= i < |pool|
      ensures litMap[i].id == pool[i]
    {
      assert EntryMapped(s, start, Contents(pool, content), i, pool[i], litMap[i]);
    }
  }

  /** Through the map and the table, a pooled literal leads to its content (cut to 16-bit length). */
  lemma {:induction false} MapLeads(s: seq<Byte>, start: nat, end: nat, pool: seq<Word>, content: Word -> Literal, litMap: seq<MapEntry>, id: Word)
    requires GoodContent(content) && AllPoolable(pool) && |litMap| == |pool| && id in pool
    requires Mapped(s, start, pool, content, litMap, |pool|)
    requires start + TableSize(Contents(pool, content)) == end <= |s|
    ensures InMap(litMap, id)
    ensures TableResolver(s[start..end])(OffsetOf(litMap, id)) == Stored(Truncated(content(id)))
  {
    hide EntryMapped, TableResolver, InMap, OffsetOf, TableSize;
    MapIds(s, start, pool, content, litMap);
    InMapIffInPool(litMap, pool, id);
    OffsetOfEntry(litMap, id);
    var i :| 0 <= i < |litMap| && litMap[i] == MapEntry(id, OffsetOf(litMap, id));
    assert pool[i] == id && Poolable(id);
    EntryLeads(s, start, end, Contents(pool, content), i, id, litMap[i]);
  }

  // ---------------------------------------------------------------- generating

  /** The meaning of compiled code under a resolver is its unresolved tree, resolved. */
  lemma {:induction false} MeaningResolves(c: Code, resolve: Resolver)
    requires GoodCode(c)
    ensures Meaning(c, resolve) == ResolveTree(Meaning(c, Raw()), resolve)
    decreases c, 1
  {
    if c.Function? {
      var r, f := Meaning(c, Raw()), Resolving(resolve);
      assert MapValues(r.consts, f) == Meaning(c, resolve).consts;
      assert MapValues(r.tail, f) == Meaning(c, resolve).tail;
      MeaningAllResolves(c.subs, resolve);
    }
  }

  lemma {:induction false} MeaningAllResolves(codes: seq<Code>, resolve: Resolver)
    requires forall i | 0 <= i < |codes| :: GoodCode(codes[i])
    ensures MeaningAll(codes, resolve) == MapTrees(MeaningAll(codes, Raw()), Resolving(resolve), Resolving(resolve))
    decreases codes, 1
  {
    if codes != [] {
      MeaningResolves(codes[0], resolve);
      MeaningAllResolves(codes[1..], resolve);
    }
  }

  /** Replacing words by offsets and reading them through the table is reading them through the storage. */
  lemma {:induction false} RelocationMeans(pool: seq<Word>, content: Word -> Literal, litMap: seq<MapEntry>, table: seq<Byte>, blocks: seq<RBlock>)
    requires AllPoolable(pool) && Collected(pool, blocks) && Parsed(blocks) && NoBigIntZero(blocks)
    requires forall id | id in pool :: TableResolver(table)(OffsetOf(litMap, id)) == Stored(Truncated(content(id)))
    ensures var g, t := Resolving(TableResolver(table)), Resolving(Through(ShortContent(content)));
            SameOn(blocks, Then(Lift(Moved(litMap, SetConst())), g), Then(Lift(Moved(litMap, SetTail())), g), t, t)
  {
    hide OffsetOf, InTable, GetLiteral;
    forall i, v | 0 <= i < |blocks| && blocks[i].FunctionBlock? && v in blocks[i].consts
      ensures Resolving(TableResolver(table))(Lift(Moved(litMap, SetConst()))(v)) == Resolving(Through(ShortContent(content)))(v)
    {
      assert blocks[i] in blocks;
      WordMeans(pool, content, litMap, table, v.word, false);
    }
    forall i, v | 0 <= i < |blocks| && blocks[i].FunctionBlock? && v in blocks[i].tail
      ensures Resolving(TableResolver(table))(Lift(Moved(litMap, SetTail()))(v)) == Resolving(Through(ShortContent(content)))(v)
    {
      assert blocks[i] in blocks;
      WordMeans(pool, content, litMap, table, v.word, true);
    }
  }

  lemma {:induction false} WordMeans(pool: seq<Word>, content: Word -> Literal, litMap: seq<MapEntry>, table: seq<Byte>, w: Word, tail: bool)
    requires forall id | id in pool :: TableResolver(table)(OffsetOf(litMap, id)) == Stored(Truncated(content(id)))
    requires if tail then TailOk(w) else ConstOk(w) && w != BIGINT_ZERO
    requires Poolable(w) ==> w in pool
    ensures var rule := if tail then SetTail() else SetConst();
            TableResolver(table)(Moved(litMap, rule)(w)) == Through(ShortContent(content))(w)
  {
  }

  // ---------------------------------------------------------------- the whole snapshot

  /** The six words of a header with one function. */
  function HeaderImage(s: seq<Byte>, flags: Word, tableOffset: Word): seq<Byte>
    requires |s| >= HEADER_SIZE
  {
    Put32(Put32(Put32(Put32(Put32(Put32(s, 0, MAGIC), 4, VERSION), 8, flags), 12, tableOffset), 16, 1), 20, HEADER_SIZE)
  }

  lemma HeaderFields(s: seq<Byte>, flags: Word, tableOffset: Word)
    requires |s| >= HEADER_SIZE
    ensures var t := HeaderImage(s, flags, tableOffset);
            && |t| == |s| && Agree(s, t, HEADER_SIZE, |s|)
            && MagicField(t) == MAGIC && VersionField(t) == VERSION && FlagsField(t) == flags
            && TableField(t) == tableOffset && CountField(t) == 1 && OffsetField(t, 0) == HEADER_SIZE
  {
    var t0 := Put32(s, 0, MAGIC);
    var t1 := Put32(t0, 4, VERSION);
    var t2 := Put32(t1, 8, flags);
    var t3 := Put32(t2, 12, tableOffset);
    var t4 := Put32(t3, 16, 1);
    var t5 := Put32(t4, 20, HEADER_SIZE);
    hide Put32, Get32;
    FieldStays(s, 0, MAGIC);
    FieldStays(t0, 4, VERSION);
    FieldStays(t1, 8, flags);
    FieldStays(t2, 12, tableOffset);
    FieldStays(t3, 16, 1);
    FieldStays(t4, 20, HEADER_SIZE);
    AgreeThen(s, t0, t1, 24, |s|, 24, |s|);
    AgreeThen(s, t1, t2, 24, |s|, 24, |s|);
    AgreeThen(s, t2, t3, 24, |s|, 24, |s|);
    AgreeThen(s, t3, t4, 24, |s|, 24, |s|);
    AgreeThen(s, t4, t5, 24, |s|, 24, |s|);
  }

  lemma FieldStays(s: seq<Byte>, p: nat, w: Word)
    requires p + 4 <= 24 <= |s|
    ensures var t := Put32(s, p, w);
            && Get32(t, p) == w && Agree(s, t, 24, |s|)
            && forall q: nat | q + 4 <= p :: Get32(t, q) == Get32(s, q)
  {
    GetPut32(s, p, w);
  }

  method WriteHeader(buffer: array<Byte>, flags: Word, tableOffset: Word)
    requires buffer.Length >= HEADER_SIZE
    modifies buffer
    ensures buffer[..] == HeaderImage(old(buffer[..]), flags, tableOffset)
  {
    hide Put32;
    Store32(buffer, 0, MAGIC);
    Store32(buffer, 4, VERSION);
    Store32(buffer, 8, flags);
    Store32(buffer, 12, tableOffset);
    Store32(buffer, 16, 1);
    Store32(buffer, 20, HEADER_SIZE);
  }

  /** The code area ends below 2^32: a block starts below 2^31 and its size field has 16 bits. */
  lemma {:induction false} AreaBound(s: seq<Byte>, pos: nat, blocks: seq<RBlock>, limit: nat)
    requires BlocksAt(s, pos, Test(Raw()), blocks) && Fits(blocks, pos, limit) && blocks != []
    ensures BlocksSize(blocks) > 0 && pos + BlocksSize(blocks) <= MAXIMUM_WRITE_OFFSET + 8 * 0xffff
    decreases |blocks|
  {
    hide BlockIs;
    BlocksAtFirst(s, pos, Test(Raw()), blocks);
    BlockHere(s, pos, blocks[0]);
    if blocks[1..] != [] {
      AreaBound(s, pos + BlockSize(blocks[0]), blocks[1..], limit);
    }
  }

  /** The trees that the words of the given maps make of the compiled code. */
  function Relocated(c: Code, litMap: seq<MapEntry>): RCode
    requires GoodCode(c)
  {
    MapTree(Meaning(c, Raw()), Lift(Moved(litMap, SetConst())), Lift(Moved(litMap, SetTail())))
  }

  lemma {:induction false} OneTree(r: RCode)
    ensures FlattenAll([r]) == Flatten(r) && SubsSize([r]) == CodeSize(r)
  {
    assert [r][1..] == [];
    assert FlattenAll([r]) == Flatten(r) + [];
  }

  /** What the buffer holds in the end. b1 is its content when the literals are saved, b2 when the offsets
      are set, b3 when the header is written. */
  lemma {:induction false} Assembled(c: Code, litMap: seq<MapEntry>, b2: seq<Byte>, b3: seq<Byte>, flags: Word, tableOffset: Word, end: nat)
    requires GoodCode(c) && c.Function? && flags < 4 && 24 <= tableOffset as int <= end <= |b2|
    requires tableOffset as int == 24 + BlocksSize(Flatten(Meaning(c, Raw())))
    requires var f, h := Lift(Moved(litMap, SetConst())), Lift(Moved(litMap, SetTail()));
             && BlocksAt(b2, 24, Counted(), MapBlocks(Flatten(Meaning(c, Raw())), f, h))
             && PortableBlocks(b2[tableOffset..end], MapBlocks(Flatten(Meaning(c, Raw())), f, h))
    requires b3 == HeaderImage(b2, flags, tableOffset)
    ensures |b3| == |b2| && SnapshotIs(b3[..end], [Relocated(c, litMap)])
    ensures Table(b3[..end]) == b2[tableOffset..end]
  {
    hide BlocksAt, HeaderImage, Flatten, FlattenAll, Counted, PortableBlocks;
    var f, h := Lift(Moved(litMap, SetConst())), Lift(Moved(litMap, SetTail()));
    HeaderFields(b2, flags, tableOffset);
    var r0, raw, s := Meaning(c, Raw()), Relocated(c, litMap), b3[..end];
    var blocks := Flatten(raw);
    FlattenMap(r0, f, h);
    FlattenSize(r0);
    MapTreeSize(r0, f, h);
    FlattenSize(raw);
    OneTree(raw);
    BlocksKept(b2, b3, 24, Counted(), blocks);
    PrefixHolds(b3, end, 24, Counted(), blocks);
    HeaderOfPrefix(b3, end);
    assert [raw][..0] == [];
    assert s[tableOffset..] == b3[tableOffset..end];
    AgreeSlice(b2, b3, tableOffset, end);
  }

  lemma {:induction false} PrefixHolds(s: seq<Byte>, end: nat, pos: nat, test: BlockTest, blocks: seq<RBlock>)
    requires BlocksAt(s, pos, test, blocks) && pos + BlocksSize(blocks) <= end <= |s|
    ensures BlocksAt(s[..end], pos, test, blocks)
  {
    assert s[..end][pos..pos + BlocksSize(blocks)] == s[pos..pos + BlocksSize(blocks)];
    BlocksAtFrame(s, pos, s[..end], pos, test, blocks);
  }

  lemma HeaderOfPrefix(s: seq<Byte>, end: nat)
    requires 24 <= end <= |s|
    ensures var t := s[..end];
            && MagicField(t) == MagicField(s) && VersionField(t) == VersionField(s) && FlagsField(t) == FlagsField(s)
            && TableField(t) == TableField(s) && CountField(t) == CountField(s) && OffsetField(t, 0) == OffsetField(s, 0)
  {
  }

  /** The words that the offset-setting walk leaves behind are portable. */
  lemma {:induction false} RelocatedPortable(pool: seq<Word>, content: Word -> Literal, litMap: seq<MapEntry>, table: seq<Byte>, blocks: seq<RBlock>)
    requires AllPoolable(pool) && Collected(pool, blocks) && Parsed(blocks) && NoBigIntZero(blocks)
    requires forall id | id in pool :: TableResolver(table)(OffsetOf(litMap, id)) == Stored(Truncated(content(id)))
    ensures PortableBlocks(table, MapBlocks(blocks, Lift(Moved(litMap, SetConst())), Lift(Moved(litMap, SetTail()))))
  {
    hide OffsetOf, Portable, TableResolver, Poolable, Moved;
    var f, h := Lift(Moved(litMap, SetConst())), Lift(Moved(litMap, SetTail()));
    var moved := MapBlocks(blocks, f, h);
    forall rb | rb in moved && rb.FunctionBlock?
      ensures AllPortable(table, rb.consts) && AllPortable(table, rb.tail)
    {
      var i :| 0 <= i < |moved| && moved[i] == rb;
      assert blocks[i] in blocks;
      forall v | v in blocks[i].consts
        ensures Portable(table, f(v))
      {
        WordPortable(pool, content, litMap, table, v.word, false);
      }
      forall v | v in blocks[i].tail
        ensures Portable(table, h(v))
      {
        WordPortable(pool, content, litMap, table, v.word, true);
      }
      ValuesPortable(table, blocks[i].consts, f);
      ValuesPortable(table, blocks[i].tail, h);
    }
  }

  lemma {:induction false} WordPortable(pool: seq<Word>, content: Word -> Literal, litMap: seq<MapEntry>, table: seq<Byte>, w: Word, tail: bool)
    requires forall id | id in pool :: TableResolver(table)(OffsetOf(litMap, id)) == Stored(Truncated(content(id)))
    requires if tail then TailOk(w) else ConstOk(w) && w != BIGINT_ZERO
    requires Poolable(w) ==> w in pool
    ensures var rule := if tail then SetTail() else SetConst(); Portable(table, Direct(Moved(litMap, rule)(w)))
  {
    hide OffsetOf, InTable, GetLiteral;
  }

  lemma ValuesPortable(table: seq<Byte>, values: seq<RValue>, f: ValueMap)
    requires forall v | v in values :: Portable(table, f(v))
    ensures AllPortable(table, MapValues(values, f))
  {
    forall v | v in MapValues(values, f)
      ensures Portable(table, v)
    {
      var i :| 0 <= i < |values| && f(values[i]) == v;
      assert values[i] in values;
    }
  }

  /** Reading the relocated tree through the table gives the meaning of the compiled code. */
  lemma {:induction false} RelocatedMeans(c: Code, pool: seq<Word>, content: Word -> Literal, litMap: seq<MapEntry>, s: seq<Byte>, start: nat, end: nat)
    requires GoodCode(c) && GoodContent(content) && AllPoolable(pool) && Collected(pool, Flatten(Meaning(c, Raw())))
    requires Parsed(Flatten(Meaning(c, Raw()))) && NoBigIntZero(Flatten(Meaning(c, Raw())))
    requires |litMap| == |pool| && Mapped(s, start, pool, content, litMap, |pool|)
    requires start + TableSize(Contents(pool, content)) == end <= |s|
    ensures ResolveTree(Relocated(c, litMap), TableResolver(s[start..end])) == Meaning(c, Through(ShortContent(content)))
    ensures PortableBlocks(s[start..end], MapBlocks(Flatten(Meaning(c, Raw())),
                                                    Lift(Moved(litMap, SetConst())), Lift(Moved(litMap, SetTail()))))
  {
    hide PortableBlocks, TableResolver, OffsetOf, Flatten, Meaning, Mapped, Collected, Parsed, NoBigIntZero, SameOn;
    var table := s[start..end];
    forall id | id in pool
      ensures TableResolver(table)(OffsetOf(litMap, id)) == Stored(Truncated(content(id)))
    {
      MapLeads(s, start, end, pool, content, litMap, id);
    }
    var r0 := Meaning(c, Raw());
    RelocationMeans(pool, content, litMap, table, Flatten(r0));
    RelocatedPortable(pool, content, litMap, table, Flatten(r0));
    MapTreeThen(r0, Lift(Moved(litMap, SetConst())), Lift(Moved(litMap, SetTail())), Resolving(TableResolver(table)),
                Resolving(Through(ShortContent(content))), Resolving(Through(ShortContent(content))));
    MeaningResolves(c, Through(ShortContent(content)));
  }

  /** If all blocks fit, the aligned end of the last one is inside the buffer as well: always when the buffer size is
      a multiple of 8. Otherwise the space left for literals underflows and the table is stored behind the buffer. */
  predicate EndsInside(c: Code, limit: nat)
    requires GoodCode(c) && c.Function?
  {
    var blocks := Flatten(Meaning(c, Raw()));
    blocks != [] && (Fits(blocks, HEADER_SIZE, limit) ==> AlignUp8(WrittenEnd(blocks, HEADER_SIZE)) <= limit)
  }

  datatype SaveResult = Saved(size: nat) | SaveFailed

  /** `jerry_generate_snapshot`, from the compiled code on. It fails exactly when a block or the literal table
      does not fit; otherwise the buffer starts with a snapshot of one function that means what the compiled
      code means, where texts of 65536 bytes and more come back cut. */
  method GenerateSnapshot(c: Code, content: Word -> Literal, buffer: array<Byte>)
    returns (result: SaveResult, ghost pool: seq<Word>, ghost raw: RCode)
    requires GoodCode(c) && c.Function? && GoodContent(content) && EndsInside(c, buffer.Length)
    requires Parsed(Flatten(Meaning(c, Raw()))) && NoBigIntZero(Flatten(Meaning(c, Raw())))
    modifies buffer
    ensures Fits(Flatten(Meaning(c, Raw())), HEADER_SIZE, buffer.Length) ==>
              AllPoolable(pool) && Collected(pool, Flatten(Meaning(c, Raw())))
    ensures result.Saved? <==>
              && Fits(Flatten(Meaning(c, Raw())), HEADER_SIZE, buffer.Length)
              && TableSize(Contents(pool, content))
                 <= Smaller(buffer.Length - HEADER_SIZE - BlocksSize(Flatten(Meaning(c, Raw()))), MAXIMUM_TABLE_SIZE)
    ensures result.Saved? ==> result.size <= buffer.Length && SnapshotIs(buffer[..result.size], [raw])
    ensures result.Saved? ==> FunctionOf(buffer[..result.size], [raw], 0) == Meaning(c, Through(ShortContent(content)))
  {
    hide Fits, BlocksAt, Meaning, Flatten, AllPoolable, Collected, Parsed, NoBigIntZero, AllCovered, Mapped, TableSize,
         TableResolver, SnapshotIs, PortableBlocks, HeaderImage, MapTree, Relocated, BlocksSize, Poolable, HasRegExp, HasClass, MapBlocks,
         GoodContent, GoodCode, Extended, WrittenEnd;
    ghost var blocks := Flatten(Meaning(c, Raw()));
    pool, raw := [], RSelf;
    TestAccepts();
    FunctionHasBlock(c);
    var globals := new SnapshotGlobals();
    var _ := globals.AddCompiledCode(c, buffer, Raw(), Test(Raw()));
    if globals.error {
      return SaveFailed, pool, raw;
    }
    ghost var b0 := buffer[..];
    var tableOffset := globals.writeOffset;
    CodeEndsInsideExactly(c, Raw(), HEADER_SIZE, buffer.Length);
    WroteInside(old(buffer[..]), b0, HEADER_SIZE, tableOffset, Test(Raw()), blocks);
    EmptyPool();
    var literals := CollectLiterals(c, []);
    pool := literals;
    PoolIsPoolable(pool);
    var ok, end, litMap := SaveLiterals(literals, content, buffer, tableOffset);
    if !ok {
      return SaveFailed, pool, raw;
    }
    ghost var b1 := buffer[..];
    AreaBound(b0, HEADER_SIZE, blocks, buffer.Length);
    AgreePart(b0, b1, 0, tableOffset, HEADER_SIZE, tableOffset);
    BlocksKept(b0, b1, HEADER_SIZE, Test(Raw()), blocks);
    MapIds(b1, tableOffset, pool, content, litMap);
    LookupsStopExactly(litMap, pool, blocks);
    SetOffsets(buffer, HEADER_SIZE, tableOffset - HEADER_SIZE, litMap, blocks);
    ghost var b2 := buffer[..];
    var flags := GlobalFlags(globals.regexFound, globals.classFound);
    WriteHeader(buffer, flags, tableOffset);
    raw := Relocated(c, litMap);
    RelocatedMeans(c, pool, content, litMap, b1, tableOffset, end);
    AgreePart(b1, b2, tableOffset, |b1|, tableOffset, end);
    AgreeSlice(b1, b2, tableOffset, end);
    Assembled(c, litMap, b2, buffer[..], flags, tableOffset, end);
    assert buffer[..][..end] == buffer[..end];
    HeaderThere(buffer[..end], [raw]);
    return Saved(end), pool, raw;
  }

  lemma {:induction false} FunctionHasBlock(c: Code)
    requires GoodCode(c) && c.Function?
    ensures Flatten(Meaning(c, Raw())) != []
  {
  }

  lemma EmptyPool()
    ensures AllPoolable([])
  {
  }

  lemma PoolIsPoolable(pool: seq<Word>)
    requires AllPoolable(pool)
    ensures forall w | w in pool :: Poolable(w)
  {
  }

  lemma HeaderThere(s: seq<Byte>, raws: seq<RCode>)
    requires SnapshotIs(s, raws)
    ensures |s| >= HEADER_SIZE && TableField(s) as int <= |s| && |raws| > 0
  {
  }

  lemma TestAccepts()
    ensures Accepts(Test(Raw()), Raw())
  {
  }

  // ---------------------------------------------------------------- exactly when nothing is lost

  predicate ShortTexts(content: Word -> Literal, values: seq<RValue>) {
    forall v | v in values :: v.Direct? && Poolable(v.word) ==>
      !(content(v.word).Text? && |content(v.word).text| >= 0x1_0000)
  }

  /** No literal of the blocks is a text of 65536 bytes or more. */
  ghost predicate NoLongText(content: Word -> Literal, blocks: seq<RBlock>) {
    forall rb | rb in blocks :: rb.FunctionBlock? ==> ShortTexts(content, rb.consts) && ShortTexts(content, rb.tail)
  }

  lemma ShortTextsExactly(content: Word -> Literal, values: seq<RValue>)
    ensures ShortTexts(content, values) <==>
            forall v | v in values :: Resolving(Through(ShortContent(content)))(v) == Resolving(Through(content))(v)
  {
    var f, g := Resolving(Through(ShortContent(content))), Resolving(Through(content));
    forall v | v in values
      ensures f(v) == g(v) <==> (v.Direct? && Poolable(v.word) ==> Truncated(content(v.word)) == content(v.word))
    {
    }
    forall v | v in values && v.Direct?
      ensures Truncated(content(v.word)) == content(v.word)
              <==> !(content(v.word).Text? && |content(v.word).text| >= 0x1_0000)
    {
      SurvivesExactly(content(v.word));
    }
  }

  /** A snapshot means exactly what the compiled code means if and only if the code uses no text literal of
      65536 bytes or more. */
  lemma {:induction false} SavedExactly(c: Code, content: Word -> Literal)
    requires GoodCode(c)
    ensures Meaning(c, Through(ShortContent(content))) == Meaning(c, Through(content))
            <==> NoLongText(content, Flatten(Meaning(c, Raw())))
  {
    hide Meaning, Flatten, Through, Truncated, ShortTexts;
    var f, g, r0 := Resolving(Through(ShortContent(content))), Resolving(Through(content)), Meaning(c, Raw());
    MeaningResolves(c, Through(ShortContent(content)));
    MeaningResolves(c, Through(content));
    var blocks := Flatten(r0);
    forall rb | rb in blocks && rb.FunctionBlock?
      ensures ShortTexts(content, rb.consts) <==> forall v | v in rb.consts :: f(v) == g(v)
      ensures ShortTexts(content, rb.tail) <==> forall v | v in rb.tail :: f(v) == g(v)
    {
      ShortTextsExactly(content, rb.consts);
      ShortTextsExactly(content, rb.tail);
    }
    if MapTree(r0, f, f) == MapTree(r0, g, g) {
      FlattenMap(r0, f, f);
      FlattenMap(r0, g, g);
      SameValues(blocks, f, g);
    }
    if NoLongText(content, blocks) {
      MapTreeSame(r0, f, g);
    }
  }
}
