/** Small pieces of compiled code for which a promise about snapshots fails. */
module SnapshotExamples {
  import opened Words
  import opened Bytes
  import opened CodeBlocks
  import opened ExtendedInfo
  import opened SnapshotModel
  import opened SnapshotSave
  import opened SnapshotLiterals
  import opened SnapshotMaps
  import opened SnapshotRelocate
  import opened SnapshotFile
  import opened SnapshotGenerate
  import opened SnapshotLoad

  /** A function with one literal word, a constant or a slot, no instructions and no name. */
  function SmallBlock(constEnd: Byte, word: seq<Byte>): (b: seq<Byte>)
    requires constEnd <= 1 && |word| == 4
    ensures FunctionBytes(b) && |b| == 24 && HeaderSize(b) == 16 && TailPos(b) == 20 && TailCount(b) == 1
    ensures ConstCount(b) == constEnd && SlotCount(b) == 1 - constEnd && Flags(b) == FUNCTION_NORMAL
  {
    var b: seq<Byte> := [3, 0, 1, 0, 0, 0x10, 0, 0, 0, 0, 0, 0, 0, 0, constEnd, 1] + word + [8, 0, 0, 0];
    assert b[0] == 3 && b[1] == 0 && b[4] == 0 && b[5] == 0x10 && b[12] == 0 && b[14] == constEnd && b[15] == 1;
    b
  }

  lemma SmallWords(constEnd: Byte, word: Byte)
    requires constEnd <= 1
    ensures var b := SmallBlock(constEnd, [word, 0, 0, 0]);
            && WordAt(b, 16, 0) == word && WordAt(b, 20, 0) == VALUE_EMPTY
            && Get16(Frame(b), 4) == FUNCTION_NORMAL
  {
    var b := SmallBlock(constEnd, [word, 0, 0, 0]);
    assert b[16] == word && b[17] == 0 && b[18] == 0 && b[19] == 0;
    assert b[20] == 8 && b[21] == 0 && b[22] == 0 && b[23] == 0;
    assert Frame(b)[4] == b[4] == 0 && Frame(b)[5] == b[5] == 0x10;
  }

  /** One slot that holds a regular expression. */
  function WithRegExp(flags: Half, pattern: seq<Byte>): (c: Code)
    requires !IsFunction(flags) && |pattern| < 0x1_0000
    ensures GoodCode(c) && c.Function?
  {
    Function(SmallBlock(0, [0, 0, 0, 0]), [RegExp(flags, pattern)])
  }

  /** One constant. */
  function WithConstant(word: Byte): (c: Code)
    ensures GoodCode(c) && c.Function?
  {
    Function(SmallBlock(1, [word, 0, 0, 0]), [])
  }

  function SmallFrame(constEnd: Byte, word: Byte): (f: seq<Byte>)
    requires constEnd <= 1
    ensures |f| == 24
  {
    Frame(SmallBlock(constEnd, [word, 0, 0, 0]))
  }

  lemma RegExpMeans(flags: Half, pattern: seq<Byte>, resolve: Resolver)
    requires !IsFunction(flags) && |pattern| < 0x1_0000
    ensures Meaning(WithRegExp(flags, pattern), resolve)
         == RFunction(SmallFrame(0, 0), [], [RRegExp(flags, pattern)], [resolve(VALUE_EMPTY)])
  {
    hide SmallBlock, WordAt, Frame;
    SmallWords(0, 0);
    var c := WithRegExp(flags, pattern);
    assert c.subs[1..] == [] && MeaningAll([], resolve) == [];
    assert MeaningAll(c.subs, resolve) == [RRegExp(flags, pattern)];
    assert Values(c.bytes, 20, 1, resolve) == [resolve(VALUE_EMPTY)];
    assert Values(c.bytes, 16, 0, resolve) == [];
  }

  lemma ConstantMeans(word: Byte, resolve: Resolver)
    ensures Meaning(WithConstant(word), resolve) == RFunction(SmallFrame(1, word), [resolve(word)], [], [resolve(VALUE_EMPTY)])
  {
    hide SmallBlock, WordAt, Frame;
    SmallWords(1, word);
    var c := WithConstant(word);
    assert Values(c.bytes, 20, 1, resolve) == [resolve(VALUE_EMPTY)];
    assert Values(c.bytes, 16, 1, resolve) == [resolve(word)];
  }

  lemma RegExpBlocks(flags: Half, pattern: seq<Byte>)
    requires !IsFunction(flags) && |pattern| < 0x1_0000
    ensures Flatten(Meaning(WithRegExp(flags, pattern), Raw()))
         == [FunctionBlock(SmallFrame(0, 0), [], [24], [Direct(VALUE_EMPTY)]), RegExpBlock(flags, pattern)]
  {
    hide SmallFrame, WithRegExp;
    RegExpMeans(flags, pattern, Raw());
    var subs := [RRegExp(flags, pattern)];
    assert subs[1..] == [] && FlattenAll([]) == [];
    assert FlattenAll(subs) == [RegExpBlock(flags, pattern)];
    assert Links(subs, 24) == [24];
  }

  lemma ConstantBlocks(word: Byte)
    ensures Flatten(Meaning(WithConstant(word), Raw()))
         == [FunctionBlock(SmallFrame(1, word), [Direct(word)], [], [Direct(VALUE_EMPTY)])]
  {
    hide SmallFrame, WithConstant;
    ConstantMeans(word, Raw());
    assert FlattenAll([]) == [] && Links([], 24) == [];
  }

  lemma NotTagged(constEnd: Byte, word: Byte, consts: seq<RValue>, links: seq<nat>, tail: seq<RValue>)
    requires constEnd <= 1
    ensures !Tagged(FunctionBlock(SmallFrame(constEnd, word), consts, links, tail))
  {
    SmallWords(constEnd, word);
  }

  /** Two blocks in a row. */
  lemma {:induction false} TwoBlocks(a: RBlock, b: RBlock, off: nat, limit: nat)
    ensures BlocksSize([a, b]) == BlockSize(a) + BlockSize(b)
    ensures WrittenEnd([a, b], off) == off + BlockSize(a) + WrittenSize(b)
    ensures Fits([a, b], off, limit)
            <==> && off <= MAXIMUM_WRITE_OFFSET && !Tagged(a) && off + WrittenSize(a) <= limit
                 && off + BlockSize(a) <= MAXIMUM_WRITE_OFFSET && !Tagged(b) && off + BlockSize(a) + WrittenSize(b) <= limit
  {
    hide Tagged, BlockSize, WrittenSize;
    assert [a, b] == [a] + [b] && [a, b][..1] == [a];
    BlocksSizeConcat([a], [b]);
    FitsConcat([a], [b], off, limit);
    OneSize(a);
    OneSize(b);
    OneFits(a, off, limit);
    OneFits(b, off + BlockSize(a), limit);
  }

  lemma {:induction false} OneSize(rb: RBlock)
    ensures BlocksSize([rb]) == BlockSize(rb)
  {
    assert [rb][1..] == [];
  }

  /** When the function with a regular expression fits, and where the writer ends. */
  lemma {:induction false} SlotFits(flags: Half, pattern: seq<Byte>, limit: nat)
    requires !IsFunction(flags) && |pattern| < 0x1_0000
    ensures var blocks := Flatten(Meaning(WithRegExp(flags, pattern), Raw()));
            && blocks != [] && Parsed(blocks) && NoBigIntZero(blocks)
            && BlocksSize(blocks) == 24 + AlignUp8(REGEXP_HEADER + |pattern|)
            && WrittenEnd(blocks, HEADER_SIZE) == 54 + |pattern|
            && (Fits(blocks, HEADER_SIZE, limit) <==> !HasFlag(flags, FLAG_TAGGED_LITERALS) && 54 + |pattern| <= limit)
  {
    RegExpBlocks(flags, pattern);
    NotTagged(0, 0, [], [24], [Direct(VALUE_EMPTY)]);
    RegExpTag(flags, pattern);
    hide Flatten, Meaning, WithRegExp, Tagged, SmallFrame, HasFlag, AlignUp8, Fits, BlocksSize, WrittenEnd, Parsed, NoBigIntZero;
    var own := FunctionBlock(SmallFrame(0, 0), [], [24], [Direct(VALUE_EMPTY)]);
    TwoBlocks(own, RegExpBlock(flags, pattern), HEADER_SIZE, limit);
    SlotParsed(own, RegExpBlock(flags, pattern));
  }

  lemma SlotParsed(own: RBlock, regexp: RBlock)
    requires own.FunctionBlock? && own.consts == [] && own.tail == [Direct(VALUE_EMPTY)] && regexp.RegExpBlock?
    ensures Parsed([own, regexp]) && NoBigIntZero([own, regexp])
  {
  }

  /** A regular expression of one character that ends the code, in a buffer of 55 bytes: every block fits, and the
      write offset ends at 56. */
  lemma PaddingBehindBuffer(pattern: seq<Byte>)
    requires |pattern| == 1
    ensures var c := WithRegExp(0, pattern);
            && Parsed(Flatten(Meaning(c, Raw()))) && NoBigIntZero(Flatten(Meaning(c, Raw())))
            && Fits(Flatten(Meaning(c, Raw())), HEADER_SIZE, 55)
            && HEADER_SIZE + BlocksSize(Flatten(Meaning(c, Raw()))) == 56 && !EndsInside(c, 55)
  {
    SlotFits(0, pattern, 55);
    hide Flatten, Meaning, WithRegExp, Fits, BlocksSize, WrittenEnd, Parsed, NoBigIntZero;
  }

  /** The `s` flag alone (0x40) keeps a regular expression, and the function around it, out of every snapshot. */
  lemma DotAllRefused(pattern: seq<Byte>, limit: nat)
    requires |pattern| < 0x1_0000 && 54 + |pattern| <= limit
    ensures !Fits(Flatten(Meaning(WithRegExp(0x40, pattern), Raw())), HEADER_SIZE, limit)
    ensures Fits(Flatten(Meaning(WithRegExp(0, pattern), Raw())), HEADER_SIZE, limit)
  {
    hide Flatten, Meaning, WithRegExp, Fits, BlocksSize, WrittenEnd, Parsed, NoBigIntZero, FunctionBytes, AlignUp8;
    SlotFits(0x40, pattern, limit);
    SlotFits(0, pattern, limit);
  }

  /** The constant 0n: whatever the pool holds, the lookup of the word runs off the end of the map. */
  lemma BigIntZeroLost(litMap: seq<MapEntry>, pool: seq<Word>)
    requires AllPoolable(pool) && MapOf(litMap, pool) && Collected(pool, Flatten(Meaning(WithConstant(6), Raw())))
    ensures !AllCovered(litMap, SetConst(), SetTail(), Flatten(Meaning(WithConstant(6), Raw())))
  {
    ConstantBlocks(6);
    hide Flatten, Meaning, WithConstant, AllPoolable, MapOf, Collected, AllCovered, SetConst, SetTail, SmallFrame;
    var blocks := Flatten(Meaning(WithConstant(6), Raw()));
    ZeroBlock(blocks[0]);
    LookupsStopExactly(litMap, pool, [blocks[0]]);
  }

  lemma ZeroBlock(rb: RBlock)
    requires rb.FunctionBlock? && rb.consts == [Direct(BIGINT_ZERO)] && rb.tail == [Direct(VALUE_EMPTY)]
    ensures Parsed([rb]) && !NoBigIntZero([rb])
  {
    assert rb in [rb];
  }

  /** A storage whose strings all have 65536 bytes. */
  function LongStrings(): Word -> Literal {
    (w: Word) =>
      if IsFloat(w) then Number([0, 0, 0, 0, 0, 0, 0, 0])
      else if IsBigInt(w) then BigInt(0, [])
      else Text(seq(0x1_0000, _ => 97))
  }

  lemma LongStringsGood()
    ensures GoodContent(LongStrings())
  {
  }

  /** A constant text of 65536 bytes comes back empty. */
  lemma LongTextLost()
    ensures var direct, saved := Meaning(WithConstant(5), Through(LongStrings())), Meaning(WithConstant(5), Through(ShortContent(LongStrings())));
            && GoodContent(LongStrings()) && direct.RFunction? && saved.RFunction? && direct != saved
            && direct.consts == [Stored(LongStrings()(5))] && saved.consts == [Stored(Text([]))]
  {
    LongStringsGood();
    ConstantMeans(5, Through(LongStrings()));
    ConstantMeans(5, Through(ShortContent(LongStrings())));
    hide WithConstant, Meaning, SmallFrame, GoodContent;
    assert |LongStrings()(5).text| == 0x1_0000 && Truncated(LongStrings()(5)) == Text([]);
  }

  /** A function like `function f (a, b = 1) { ... }`: two parameters, ten bytes of instructions, the `length` 1 and the
      flags that announce it, and no name. */
  function LengthBlock(code: seq<Byte>): (b: seq<Byte>)
    requires |code| == 10
    ensures FunctionBytes(b) && |b| == 32 && BodyStart(b) == 16 && InfoEnd(b) == 28 && ArgumentEnd(b) == 2
    ensures LeavesInfo(b) && Area(b) == code + [1, 1]
  {
    var head: seq<Byte> := [4, 0, 1, 0, 0x20, 0x10, 0, 2, 0, 0, 0, 0, 0, 0, 0, 0];
    var b: seq<Byte> := head + (code + [1, 1]) + [8, 0, 0, 0];
    assert b[..16] == head && b[16..28] == code + [1, 1];
    assert forall k | 0 <= k < 16 :: b[k] == b[..16][k];
    b
  }

  function WithLength(code: seq<Byte>): (c: Code)
    requires |code| == 10
    ensures GoodCode(c) && c.Function?
  {
    Function(LengthBlock(code), [])
  }

  lemma {:induction false} LengthLoses(b: seq<Byte>, r: RCode)
    requires LeavesInfo(b) && r.RFunction? && r.frame == Frame(b)
    ensures LosesInfo(r)
  {
    FrameFields(b);
    hide FunctionBytes, HasInfo, Redirects, Frame, AnyLoses;
  }

  /** Copied, the function has the length 1. With its instructions left in the snapshot it has the length that the heap
      happens to hold, for instance any odd number below 128. */
  lemma LengthLost(code: seq<Byte>, pos: nat, value: Byte, address: nat -> Address)
    requires |code| == 10 && value < 0x80 && value % 2 == 1
    ensures var r := Meaning(WithLength(code), Raw());
            var copied, redirected := SeenView(r, pos, true, Filled(value, address)), SeenView(r, pos, false, Filled(value, address));
            && LosesInfo(r) && copied == ViewOf(r) && copied.FunctionView? && redirected.FunctionView?
            && ReportedLength(2, copied.info) == 1 && ReportedLength(2, redirected.info) == value
  {
    hide LengthBlock, FunctionBytes, LosesInfo, SeenViews, SeenInfo, Filled, Raw, InfoOf, Area;
    var b, r := LengthBlock(code), Meaning(WithLength(code), Raw());
    FrameFields(b);
    LengthLoses(b, r);
    SeenSame(r, pos, true, Filled(value, address));
    LengthInfo(b, pos, value, address);
    SeenFunction(r, pos, true, Filled(value, address));
    SeenFunction(r, pos, false, Filled(value, address));
    hide SeenView, ViewOf;
  }

  lemma LengthInfo(b: seq<Byte>, pos: nat, value: Byte, address: nat -> Address)
    requires LeavesInfo(b) && |Area(b)| >= 2 && Area(b)[|Area(b)| - 1] == Area(b)[|Area(b)| - 2] == 1
    requires value < 0x80 && value % 2 == 1
    ensures SeenInfo(Frame(b), pos, true, Filled(value, address)) == Info(1, 1)
    ensures SeenInfo(Frame(b), pos, false, Filled(value, address)) == Info(value, value)
  {
    OwnLength(b);
    hide HasInfo, Area, Filled, Gap, Redirects, SeenInfo, Frame, InfoIn, InfoOf, HasHeader, Get16, HeaderSize;
    FrameInfo(b, pos, true, Filled(value, address));
    FrameInfo(b, pos, false, Filled(value, address));
    FilledInfo(b, pos, value, address);
  }

  lemma OwnLength(b: seq<Byte>)
    requires LeavesInfo(b) && |Area(b)| >= 2 && Area(b)[|Area(b)| - 1] == Area(b)[|Area(b)| - 2] == 1
    ensures InfoOf(b) == Info(1, 1)
  {
    ShortInfo(Area(b), 1);
    hide FunctionBytes, HasInfo, Area;
  }
}
