/** The recursive writer of jerry-core/api/jerry-snapshot.c: a tree of compiled code becomes a sequence of
    blocks whose slots hold relative offsets. */
module SnapshotSave {
  import opened Words
  import opened Bytes
  import opened CodeBlocks
  import opened SnapshotModel

  const SNAPSHOT_HEADER_SIZE := 24
  const MAXIMUM_WRITE_OFFSET := 0x7fff_ffff // UINT32_MAX >> 1

  /** Compiled code in the engine's heap: the bytes of the block, whose slots hold pointers to the
      sub-functions listed in subs. SelfCode only occurs in a slot. */
  datatype Code =
    | Function(bytes: seq<Byte>, subs: seq<Code>)
    | RegExp(flags: Half, pattern: seq<Byte>)
    | SelfCode

  predicate GoodCode(c: Code) {
    match c
    case Function(bytes, subs) =>
      FunctionBytes(bytes) && |subs| == SlotCount(bytes) && forall i | 0 <= i < |subs| :: GoodCode(subs[i])
    case RegExp(flags, pattern) => !IsFunction(flags) && |pattern| < 0x1_0000
    case SelfCode => true
  }

  /** What the compiled code stands for, its literal words read through `resolve`. */
  function Meaning(c: Code, resolve: Resolver): RCode
    requires GoodCode(c)
    decreases c, 0
  {
    match c
    case Function(b, subs) =>
      RFunction(Frame(b),
                Values(b, HeaderSize(b), ConstCount(b), resolve),
                MeaningAll(subs, resolve),
                Values(b, TailPos(b), TailCount(b), resolve))
    case RegExp(flags, pattern) => RRegExp(flags, pattern)
    case SelfCode => RSelf
  }

  function MeaningAll(codes: seq<Code>, resolve: Resolver): (r: seq<RCode>)
    requires forall i | 0 <= i < |codes| :: GoodCode(codes[i])
    ensures |r| == |codes|
    decreases codes, 0
  {
    if codes == [] then [] else [Meaning(codes[0], resolve)] + MeaningAll(codes[1..], resolve)
  }

  // ---------------------------------------------------------------- what fits

  /** The bytes that are written for a block; a pattern is padded without a write. */
  function WrittenSize(rb: RBlock): nat {
    match rb
    case FunctionBlock(frame, _, _, _) => |frame|
    case RegExpBlock(_, pattern) => REGEXP_HEADER + |pattern|
  }

  /** The tagged-literals flag is looked up before a regular expression is told from a function, so the
      `s` flag of a regular expression (RE_FLAG_DOTALL, the same bit) counts as well. */
  predicate Tagged(rb: RBlock) {
    match rb
    case FunctionBlock(frame, _, _, _) => |frame| >= 6 && HasFlag(Get16(frame, 4), FLAG_TAGGED_LITERALS)
    case RegExpBlock(flags, _) => HasFlag(flags, FLAG_TAGGED_LITERALS)
  }

  /** Every block starts early enough, has no tagged template literals, and is written inside the buffer. */
  predicate Fits(blocks: seq<RBlock>, off: nat, limit: nat)
    decreases |blocks|
  {
    blocks != [] ==>
      && off <= MAXIMUM_WRITE_OFFSET && !Tagged(blocks[0]) && off + WrittenSize(blocks[0]) <= limit
      && Fits(blocks[1..], off + BlockSize(blocks[0]), limit)
  }

  lemma {:induction false} FitsConcat(a: seq<RBlock>, b: seq<RBlock>, off: nat, limit: nat)
    ensures Fits(a + b, off, limit) <==> Fits(a, off, limit) && Fits(b, off + BlocksSize(a), limit)
    decreases |a|
  {
    if a == [] {
      assert a + b == b;
    } else {
      FitsConcat(a[1..], b, off + BlockSize(a[0]), limit);
      assert (a + b)[1..] == a[1..] + b;
    }
  }

  /** The features that the snapshot header announces. */
  predicate HasRegExp(blocks: seq<RBlock>) {
    blocks != [] && (blocks[0].RegExpBlock? || HasRegExp(blocks[1..]))
  }

  predicate IsClass(rb: RBlock) {
    rb.FunctionBlock? && |rb.frame| >= 6 && IsConstructor(Get16(rb.frame, 4))
  }

  predicate HasClass(blocks: seq<RBlock>) {
    blocks != [] && (IsClass(blocks[0]) || HasClass(blocks[1..]))
  }

  lemma {:induction false} FeaturesConcat(a: seq<RBlock>, b: seq<RBlock>)
    ensures HasRegExp(a + b) <==> HasRegExp(a) || HasRegExp(b)
    ensures HasClass(a + b) <==> HasClass(a) || HasClass(b)
  {
    if a == [] {
      assert a + b == b;
    } else {
      FeaturesConcat(a[1..], b);
      assert (a + b)[1..] == a[1..] + b;
    }
  }

  // ---------------------------------------------------------------- the block being patched

  /** The bytes s[start..] hold the block b with its first i slots replaced by the given links. */
  predicate Patched(s: seq<Byte>, start: nat, b: seq<Byte>, links: seq<nat>, i: nat)
    requires FunctionBytes(b)
  {
    && start + |b| <= |s| && i <= |links| && i <= SlotCount(b)
    && (forall k | 0 <= k < |b| && !(SlotPos(b) <= k < SlotPos(b) + 4 * i) :: s[start + k] == b[k])
    && (forall j | 0 <= j < i :: WordAt(s, start + SlotPos(b), j) == links[j])
  }

  lemma PatchedLinks(s: seq<Byte>, start: nat, b: seq<Byte>, links: seq<nat>)
    requires FunctionBytes(b) && |links| == SlotCount(b) && Patched(s, start, b, links, SlotCount(b))
    ensures forall i | 0 <= i < SlotCount(b) :: WordAt(s[start..start + |b|], SlotPos(b), i) == links[i]
  {
    hide Get32, Volatile;
    var c := s[start..start + |b|];
    forall i | 0 <= i < SlotCount(b)
      ensures WordAt(c, SlotPos(b), i) == links[i]
    {
      var p := SlotPos(b) + 4 * i;
      SlotInside(b, i);
      SliceOfSlice(s, start, start + |b|, p, p + 4);
      SameGet(c, p, s, start + p, 4);
    }
  }

  /** Completely patched, the bytes are the block with these links. */
  lemma PatchedIsBlock(s: seq<Byte>, start: nat, b: seq<Byte>, links: seq<nat>, resolve: Resolver)
    requires FunctionBytes(b) && |links| == SlotCount(b) && Patched(s, start, b, links, SlotCount(b))
    ensures BlockIs(s[start..start + |b|], resolve,
                    FunctionBlock(Frame(b), Values(b, HeaderSize(b), ConstCount(b), resolve), links,
                                  Values(b, TailPos(b), TailCount(b), resolve)))
  {
    var c := s[start..start + |b|];
    assert forall k | 0 <= k < |b| :: c[k] == s[start + k];
    FrameKept(b, c);
    TableKept(b, c, HeaderSize(b), ConstCount(b));
    TableKept(b, c, TailPos(b), TailCount(b));
    PatchedLinks(s, start, b, links);
    assert ReadBlock(c, resolve).links == links;
    assert ReadBlock(c, resolve).consts == Values(b, HeaderSize(b), ConstCount(b), resolve);
    assert ReadBlock(c, resolve).tail == Values(b, TailPos(b), TailCount(b), resolve);
  }

  /** The next link is stored behind the ones already there. */
  lemma PatchNext(s: seq<Byte>, start: nat, b: seq<Byte>, links: seq<nat>, i: nat, w: Word)
    requires FunctionBytes(b) && Patched(s, start, b, links, i) && i < |links| && i < SlotCount(b) && w == links[i]
    ensures Patched(Put32(s, start + SlotPos(b) + 4 * i, w), start, b, links, i + 1)
  {
    WordStored(s, start + SlotPos(b), SlotCount(b), i, w);
  }

  /** Bytes of the block are not touched by what happens behind it. */
  lemma PatchedKept(s: seq<Byte>, t: seq<Byte>, start: nat, b: seq<Byte>, links: seq<nat>, i: nat)
    requires FunctionBytes(b) && Patched(s, start, b, links, i) && Agree(s, t, start, start + |b|)
    ensures Patched(t, start, b, links, i)
  {
    forall j | 0 <= j < i
      ensures WordAt(t, start + SlotPos(b), j) == links[j]
    {
      var p := start + SlotPos(b) + 4 * j;
      AgreeSlice(s, t, p, p + 4);
      SameGet(t, p, s, p, 4);
    }
  }

  /** With enough space, the only thing that keeps code out of a snapshot is the tagged-literals bit of a block. */
  lemma {:induction false} RoomyFitsExactly(blocks: seq<RBlock>, off: nat, limit: nat)
    requires off + BlocksSize(blocks) <= limit && off + BlocksSize(blocks) <= MAXIMUM_WRITE_OFFSET
    ensures Fits(blocks, off, limit) <==> forall rb | rb in blocks :: !Tagged(rb)
    decreases |blocks|
  {
    if blocks != [] {
      hide Tagged;
      assert blocks == [blocks[0]] + blocks[1..];
      RoomyFitsExactly(blocks[1..], off + BlockSize(blocks[0]), limit);
    }
  }

  // ---------------------------------------------------------------- where the writer ends

  /** The end of the last byte that is written for the blocks. */
  function WrittenEnd(blocks: seq<RBlock>, off: nat): nat
    requires blocks != []
  {
    off + BlocksSize(blocks[..|blocks| - 1]) + WrittenSize(blocks[|blocks| - 1])
  }

  lemma {:induction false} LastFits(blocks: seq<RBlock>, off: nat, limit: nat)
    requires blocks != [] && Fits(blocks, off, limit)
    ensures WrittenEnd(blocks, off) <= limit
    ensures BlocksSize(blocks) == BlocksSize(blocks[..|blocks| - 1]) + BlockSize(blocks[|blocks| - 1])
  {
    hide Tagged;
    var most, last := blocks[..|blocks| - 1], blocks[|blocks| - 1];
    assert blocks == most + [last];
    FitsConcat(most, [last], off, limit);
    BlocksSizeConcat(most, [last]);
    OneFits(last, off + BlocksSize(most), limit);
    assert [last][1..] == [];
  }

  lemma {:induction false} BlocksAligned(blocks: seq<RBlock>)
    requires forall rb | rb in blocks :: BlockSize(rb) % 8 == 0
    ensures BlocksSize(blocks) % 8 == 0
  {
    if blocks != [] {
      hide BlockSize;
      assert blocks[0] in blocks;
      BlocksAligned(blocks[1..]);
    }
  }

  lemma AlignBelow(n: nat, limit: nat)
    requires n <= limit
    ensures AlignUp8(n) < limit + 8 && (limit % 8 == 0 || n % 8 == 0 ==> AlignUp8(n) <= limit)
  {
  }

  lemma AlignedSum(a: nat, b: nat)
    requires a % 8 == 0 && b % 8 == 0
    ensures (a + b) % 8 == 0 && AlignUp8(a + b) == a + b
  {
  }

  /** The write offset is aligned after the check against the buffer size. When everything fits, it ends inside the
      buffer if and only if the aligned end of the last byte does: always when the buffer size is a multiple of 8
      or the last block is a function, and it is never 8 bytes behind the buffer. */
  lemma {:induction false} EndsInsideExactly(blocks: seq<RBlock>, off: nat, limit: nat)
    requires blocks != [] && Fits(blocks, off, limit) && off % 8 == 0 && forall rb | rb in blocks :: BlockSize(rb) % 8 == 0
    ensures off + BlocksSize(blocks) == AlignUp8(WrittenEnd(blocks, off)) < limit + 8
    ensures limit % 8 == 0 || blocks[|blocks| - 1].FunctionBlock? ==> off + BlocksSize(blocks) <= limit
  {
    hide Fits, BlocksSize, AlignUp8;
    var most, last := blocks[..|blocks| - 1], blocks[|blocks| - 1];
    LastFits(blocks, off, limit);
    BlocksAligned(most);
    assert last in blocks;
    AlignedSum(off, BlocksSize(most));
    AlignBelow(WrittenEnd(blocks, off), limit);
    if last.RegExpBlock? {
      AlignUp8Fits(off + BlocksSize(most), WrittenSize(last));
    } else {
      AlignedSum(off + BlocksSize(most), BlockSize(last));
    }
  }

  /** The same of compiled code. */
  lemma {:induction false} CodeEndsInsideExactly(c: Code, resolve: Resolver, off: nat, limit: nat)
    requires GoodCode(c) && Flatten(Meaning(c, resolve)) != [] && Fits(Flatten(Meaning(c, resolve)), off, limit) && off % 8 == 0
    ensures off + BlocksSize(Flatten(Meaning(c, resolve))) <= limit
            <==> AlignUp8(WrittenEnd(Flatten(Meaning(c, resolve)), off)) <= limit
    ensures limit % 8 == 0 ==> AlignUp8(WrittenEnd(Flatten(Meaning(c, resolve)), off)) <= limit
  {
    hide Fits, Flatten, BlocksSize, Meaning;
    CodeAligned(c, resolve);
    EndsInsideExactly(Flatten(Meaning(c, resolve)), off, limit);
  }

  /** Blocks of compiled code take whole units of 8 bytes. */
  lemma {:induction false} CodeAligned(c: Code, resolve: Resolver)
    requires GoodCode(c)
    ensures forall rb | rb in Flatten(Meaning(c, resolve)) :: BlockSize(rb) % 8 == 0
    decreases c, 1
  {
    if c.Function? {
      CodesAligned(c.subs, resolve);
      BlockLength(c.bytes, 0);
    }
  }

  lemma {:induction false} CodesAligned(codes: seq<Code>, resolve: Resolver)
    requires forall i | 0 <= i < |codes| :: GoodCode(codes[i])
    ensures forall rb | rb in FlattenAll(MeaningAll(codes, resolve)) :: BlockSize(rb) % 8 == 0
    decreases codes, 1
  {
    if codes != [] {
      hide Meaning, Flatten;
      CodeAligned(codes[0], resolve);
      CodesAligned(codes[1..], resolve);
    }
  }

  // ---------------------------------------------------------------- what a write leaves behind

  /** The test accepts every block that resolves as claimed. */
  ghost predicate Accepts(test: BlockTest, resolve: Resolver) {
    forall b, rb {:trigger BlockIs(b, resolve, rb)} :: BlockIs(b, resolve, rb) ==> test(b, rb)
  }

  /** A buffer and the bytes that lie behind it. The padding of a last regular expression may reach into them;
      nothing writes there. */
  function Extended(s: seq<Byte>): (t: seq<Byte>)
    ensures |t| == |s| + 7 && t[..|s|] == s
  {
    s + [0, 0, 0, 0, 0, 0, 0]
  }

  lemma ExtendedSplice(s: seq<Byte>, p: nat, data: seq<Byte>)
    requires p + |data| <= |s|
    ensures Extended(Splice(s, p, data)) == Splice(Extended(s), p, data)
  {
  }

  lemma ExtendedPut(s: seq<Byte>, p: nat, w: Word)
    requires p + 4 <= |s|
    ensures Extended(Put32(s, p, w)) == Put32(Extended(s), p, w)
  {
  }

  /** From s to t, exactly the blocks were written, at start..end. */
  ghost predicate Wrote(s: seq<Byte>, t: seq<Byte>, start: nat, end: nat, test: BlockTest, blocks: seq<RBlock>) {
    && end == start + BlocksSize(blocks) <= |s|
    && Agree(s, t, 0, start) && Agree(s, t, end, |s|)
    && BlocksAt(t, start, test, blocks)
  }

  /** What is written inside the buffer is there. */
  lemma {:induction false} WroteInside(s: seq<Byte>, t: seq<Byte>, start: nat, end: nat, test: BlockTest, blocks: seq<RBlock>)
    requires |s| == |t| && Wrote(Extended(s), Extended(t), start, end, test, blocks) && start <= end <= |t|
    ensures Wrote(s, t, start, end, test, blocks)
  {
    hide BlocksAt;
    assert Extended(t)[start..end] == t[start..end];
    BlocksAtFrame(Extended(t), start, t, start, test, blocks);
  }

  lemma {:induction false} OneBlock(s: seq<Byte>, pos: nat, test: BlockTest, rb: RBlock)
    ensures BlocksSize([rb]) == BlockSize(rb)
    ensures pos + BlockSize(rb) <= |s| && test(s[pos..pos + BlockSize(rb)], rb) ==> BlocksAt(s, pos, test, [rb])
  {
    assert [rb][1..] == [];
  }

  lemma {:induction false} OneFits(rb: RBlock, off: nat, limit: nat)
    ensures Fits([rb], off, limit)
            <==> off <= MAXIMUM_WRITE_OFFSET && !Tagged(rb) && off + WrittenSize(rb) <= limit
  {
    assert [rb][1..] == [];
  }

  // ---------------------------------------------------------------- regular expressions

  /** The buffer after lines 189-224: the pattern first, then the three header fields. */
  function RegExpImage(s: seq<Byte>, start: nat, flags: Half, pattern: seq<Byte>): seq<Byte>
    requires start + REGEXP_HEADER + |pattern| <= |s| && |pattern| < 0x1_0000
  {
    var u := Splice(s, start + REGEXP_HEADER, pattern);
    Put16(Put16(Put16(u, start + 2, |pattern|), start, (REGEXP_HEADER + |pattern| + 7) / 8), start + 4, flags)
  }

  lemma HeaderWritten(s: seq<Byte>, start: nat, flags: Half, pattern: seq<Byte>)
    requires start + REGEXP_HEADER + |pattern| <= |s| && |pattern| < 0x1_0000
    ensures var t := RegExpImage(s, start, flags, pattern); var e := start + REGEXP_HEADER + |pattern|;
            && Agree(s, t, 0, start) && Agree(s, t, e, |s|)
            && t[start + REGEXP_HEADER..e] == pattern
            && Get16(t, start) == (REGEXP_HEADER + |pattern| + 7) / 8
            && Get16(t, start + 2) == |pattern| && Get16(t, start + 4) == flags
  {
    var p, e := start + REGEXP_HEADER, start + REGEXP_HEADER + |pattern|;
    var u, t := Splice(s, p, pattern), RegExpImage(s, start, flags, pattern);
    SpliceAgrees(s, p, pattern);
    assert forall k | 0 <= k < |s| && !(start <= k < p) :: t[k] == u[k];
    assert t[p..e] == u[p..e];
  }

  lemma RegExpIs(b: seq<Byte>, flags: Half, pattern: seq<Byte>, t: seq<Byte>, start: nat, resolve: Resolver)
    requires !IsFunction(flags) && |pattern| < 0x1_0000
    requires var n := AlignUp8(REGEXP_HEADER + |pattern|); start + n <= |t| && b == t[start..start + n]
    requires Get16(t, start) == (REGEXP_HEADER + |pattern| + 7) / 8
    requires Get16(t, start + 2) == |pattern| && Get16(t, start + 4) == flags
    requires t[start + REGEXP_HEADER..start + REGEXP_HEADER + |pattern|] == pattern
    ensures BlockIs(b, resolve, RegExpBlock(flags, pattern))
  {
    hide Get16;
    SliceOfSlice(t, start, start + |b|, 0, 2);
    SliceOfSlice(t, start, start + |b|, 2, 4);
    SliceOfSlice(t, start, start + |b|, 4, 6);
    SameGet(b, 0, t, start, 2);
    SameGet(b, 2, t, start + 2, 2);
    SameGet(b, 4, t, start + 4, 2);
    SliceOfSlice(t, start, start + |b|, REGEXP_HEADER, REGEXP_HEADER + |pattern|);
  }

  lemma ExtendedImage(s: seq<Byte>, start: nat, flags: Half, pattern: seq<Byte>)
    requires start + REGEXP_HEADER + |pattern| <= |s| && |pattern| < 0x1_0000
    ensures Extended(RegExpImage(s, start, flags, pattern)) == RegExpImage(Extended(s), start, flags, pattern)
  {
    hide Splice;
    ExtendedSplice(s, start + REGEXP_HEADER, pattern);
  }

  lemma AlignUp8Fits(start: nat, n: nat)
    requires start % 8 == 0
    ensures AlignUp8(start + n) == start + AlignUp8(n)
  {
  }

  lemma RegExpWritten(s: seq<Byte>, start: nat, flags: Half, pattern: seq<Byte>, t: seq<Byte>, resolve: Resolver, test: BlockTest)
    requires !IsFunction(flags) && |pattern| < 0x1_0000 && start % 8 == 0 && Accepts(test, resolve)
    requires start + AlignUp8(REGEXP_HEADER + |pattern|) <= |s|
    requires t == RegExpImage(s, start, flags, pattern)
    ensures Wrote(s, t, start, start + AlignUp8(REGEXP_HEADER + |pattern|), test, [RegExpBlock(flags, pattern)])
  {
    hide BlocksAt, BlocksSize, Get16, RegExpImage, AlignUp8;
    var rb := RegExpBlock(flags, pattern);
    var n := AlignUp8(REGEXP_HEADER + |pattern|);
    HeaderWritten(s, start, flags, pattern);
    var b := t[start..start + n];
    RegExpIs(b, flags, pattern, t, start, resolve);
    assert test(b, rb);
    OneBlock(t, start, test, rb);
  }

  /** Lines 218-224. */
  method WriteRegExpHeader(buffer: array<Byte>, start: nat, flags: Half, pattern: seq<Byte>, ghost s: seq<Byte>,
                           ghost resolve: Resolver, ghost test: BlockTest)
    requires !IsFunction(flags) && |pattern| < 0x1_0000 && start % 8 == 0 && Accepts(test, resolve)
    requires start + REGEXP_HEADER + |pattern| <= buffer.Length == |s|
    requires buffer[..] == Splice(s, start + REGEXP_HEADER, pattern)
    modifies buffer
    ensures Wrote(Extended(s), Extended(buffer[..]), start, AlignUp8(start + REGEXP_HEADER + |pattern|), test,
                  [RegExpBlock(flags, pattern)])
  {
    hide Wrote, Put16, Splice, Extended;
    AlignUp8Fits(start, REGEXP_HEADER + |pattern|);
    Store16(buffer, start + 2, |pattern|);
    Store16(buffer, start, (REGEXP_HEADER + |pattern| + 7) / 8);
    Store16(buffer, start + 4, flags);
    ExtendedImage(s, start, flags, pattern);
    RegExpWritten(Extended(s), start, flags, pattern, Extended(buffer[..]), resolve, test);
  }

  // ---------------------------------------------------------------- steps of the slot loop

  /** State of the slot loop after i slots: the children so far are written behind the block. */
  ghost predicate SlotsWritten(s: seq<Byte>, t: seq<Byte>, start: nat, b: seq<Byte>, end: nat, kids: seq<RCode>, i: nat,
                               test: BlockTest)
    requires FunctionBytes(b)
  {
    && i <= |kids|
    && end == start + |b| + SubsSize(kids[..i]) <= |t|
    && Agree(s, t, 0, start) && Agree(s, t, end, |s|)
    && Patched(t, start, b, Links(kids, |b|), i)
    && BlocksAt(t, start + |b|, test, FlattenAll(kids[..i]))
  }

  lemma SlotsStart(s: seq<Byte>, start: nat, b: seq<Byte>, kids: seq<RCode>, test: BlockTest)
    requires FunctionBytes(b) && |kids| == SlotCount(b) && start + |b| <= |s|
    ensures SlotsWritten(s, Splice(s, start, b), start, b, start + |b|, kids, 0, test)
  {
    hide WordAt, SlotPos, SlotCount;
    SpliceAgrees(s, start, b);
    assert kids[..0] == [];
  }

  /** Storing a word leaves blocks that lie behind it in place. */
  lemma {:induction false} StoreBeforeBlocks(t: seq<Byte>, p: nat, w: Word, pos: nat, test: BlockTest, blocks: seq<RBlock>)
    requires p + 4 <= pos && BlocksAt(t, pos, test, blocks)
    ensures BlocksAt(Put32(t, p, w), pos, test, blocks)
  {
    hide Put32, BlocksAt;
    BlocksFit(t, pos, test, blocks);
    PutAgrees(t, p, w);
    BlocksKept(t, Put32(t, p, w), pos, test, blocks);
  }

  /** Filling the next slot, with everything behind the block already in place. */
  lemma {:induction false} FillSlot(s: seq<Byte>, t: seq<Byte>, start: nat, b: seq<Byte>, end: nat, kids: seq<RCode>, i: nat,
                 test: BlockTest, w: Word)
    requires FunctionBytes(b) && |kids| == SlotCount(b) && i < |kids|
    requires end == start + |b| + SubsSize(kids[..i + 1]) <= |t|
    requires Agree(s, t, 0, start) && Agree(s, t, end, |s|)
    requires Patched(t, start, b, Links(kids, |b|), i) && w == Links(kids, |b|)[i]
    requires BlocksAt(t, start + |b|, test, FlattenAll(kids[..i + 1]))
    ensures SlotsWritten(s, Put32(t, start + SlotPos(b) + 4 * i, w), start, b, end, kids, i + 1, test)
  {
    hide Put32, BlocksAt, FlattenAll, SubsSize, Links, Patched, SlotPos, SlotCount, FunctionBytes;
    SlotInside(b, i);
    var p := start + SlotPos(b) + 4 * i;
    PutAgrees(t, p, w);
    AgreeThen(s, t, Put32(t, p, w), 0, start, 0, p);
    AgreeThen(s, t, Put32(t, p, w), end, |s|, p + 4, |t|);
    PatchNext(t, start, b, Links(kids, |b|), i, w);
    StoreBeforeBlocks(t, p, w, start + |b|, test, FlattenAll(kids[..i + 1]));
  }

  lemma SlotInside(b: seq<Byte>, i: nat)
    requires FunctionBytes(b) && i < SlotCount(b)
    ensures SlotPos(b) + 4 * i + 4 <= |b|
  {
  }

  lemma SelfSlot(s: seq<Byte>, t: seq<Byte>, start: nat, b: seq<Byte>, end: nat, kids: seq<RCode>, i: nat, test: BlockTest)
    requires FunctionBytes(b) && |kids| == SlotCount(b) && i < |kids| && kids[i].RSelf?
    requires SlotsWritten(s, t, start, b, end, kids, i, test)
    ensures SlotsWritten(s, Put32(t, start + SlotPos(b) + 4 * i, 0), start, b, end, kids, i + 1, test)
  {
    hide Put32, BlocksAt, SubsSize, Links, Patched, SlotPos, FunctionBytes, SlotCount;
    NextKid(kids, i);
    assert FlattenAll(kids[..i + 1]) == FlattenAll(kids[..i]);
    LinkIs(kids, |b|, i);
    FillSlot(s, t, start, b, end, kids, i, test, 0);
  }

  lemma ChildSlot(s: seq<Byte>, t: seq<Byte>, u: seq<Byte>, start: nat, b: seq<Byte>, end: nat, end': nat,
                  kids: seq<RCode>, i: nat, test: BlockTest, w: Word)
    requires FunctionBytes(b) && |kids| == SlotCount(b) && i < |kids| && !kids[i].RSelf?
    requires SlotsWritten(s, t, start, b, end, kids, i, test)
    requires Wrote(t, u, end, end', test, Flatten(kids[i])) && w == end - start
    ensures SlotsWritten(s, Put32(u, start + SlotPos(b) + 4 * i, w), start, b, end', kids, i + 1, test)
  {
    hide Put32, BlocksAt, FlattenAll, Flatten, BlocksSize, SubsSize, Links, Patched, SlotPos, FunctionBytes, SlotCount;
    var mid := start + |b|;
    NextKid(kids, i);
    LinkIs(kids, |b|, i);
    FlattenAllSize(kids[..i]);
    FlattenSize(kids[i]);
    AgreeThen(s, t, u, 0, start, 0, end);
    AgreeThen(s, t, u, end, |s|, end', |s|);
    PatchedKept(t, u, start, b, Links(kids, |b|), i);
    BlocksKept(t, u, mid, test, FlattenAll(kids[..i]));
    BlocksAtConcat(u, mid, test, FlattenAll(kids[..i]), Flatten(kids[i]));
    FillSlot(s, u, start, b, end', kids, i, test, w);
  }

  lemma NextKid(kids: seq<RCode>, i: nat)
    requires i < |kids|
    ensures FlattenAll(kids[..i + 1]) == FlattenAll(kids[..i]) + Flatten(kids[i])
    ensures SubsSize(kids[..i + 1]) == SubsSize(kids[..i]) + CodeSize(kids[i])
  {
    assert kids[..i + 1] == kids[..i] + [kids[i]];
    FlattenAllConcat(kids[..i], [kids[i]]);
    assert [kids[i]][1..] == [];
    assert FlattenAll([kids[i]]) == Flatten(kids[i]) + [];
  }

  lemma {:induction false} SlotsDone(s: seq<Byte>, t: seq<Byte>, start: nat, c: Code, end: nat, resolve: Resolver, test: BlockTest)
    requires GoodCode(c) && c.Function? && Accepts(test, resolve)
    requires SlotsWritten(s, t, start, c.bytes, end, MeaningAll(c.subs, resolve), |c.subs|, test)
    ensures Wrote(s, t, start, end, test, Flatten(Meaning(c, resolve)))
  {
    hide BlocksAt, SubsSize, FlattenAll, Links, Patched, BlocksSize, BlockIs, MeaningAll;
    var b, kids, r := c.bytes, MeaningAll(c.subs, resolve), Meaning(c, resolve);
    assert kids[..|kids|] == kids;
    PatchedIsBlock(t, start, b, Links(kids, |b|), resolve);
    var own := FunctionBlock(r.frame, r.consts, Links(kids, |b|), r.tail);
    assert test(t[start..start + |b|], own);
    OneBlock(t, start, test, own);
    FlattenAllSize(kids);
    BlocksAtConcat(t, start, test, [own], FlattenAll(kids));
    BlocksSizeConcat([own], FlattenAll(kids));
  }

  lemma {:induction false} MeaningAt(codes: seq<Code>, resolve: Resolver, i: nat)
    requires i < |codes| && forall j | 0 <= j < |codes| :: GoodCode(codes[j])
    ensures MeaningAll(codes, resolve)[i] == Meaning(codes[i], resolve)
    ensures MeaningAll(codes, resolve)[i].RSelf? <==> codes[i].SelfCode?
  {
    if i > 0 {
      MeaningAt(codes[1..], resolve, i - 1);
    }
  }

  /** The features of a function: its own and those of its children. */
  lemma {:induction false} FunctionFeatures(c: Code, resolve: Resolver)
    requires GoodCode(c) && c.Function?
    ensures HasRegExp(Flatten(Meaning(c, resolve))) <==> HasRegExp(FlattenAll(MeaningAll(c.subs, resolve)))
    ensures HasClass(Flatten(Meaning(c, resolve)))
            <==> IsConstructor(Flags(c.bytes)) || HasClass(FlattenAll(MeaningAll(c.subs, resolve)))
  {
    var r := Meaning(c, resolve);
    assert Flatten(r)[1..] == FlattenAll(r.subs);
    assert r.frame[4] == c.bytes[4] && r.frame[5] == c.bytes[5];
  }

  lemma FeaturesNext(kids: seq<RCode>, i: nat)
    requires i < |kids|
    ensures HasRegExp(FlattenAll(kids[..i + 1])) <==> HasRegExp(FlattenAll(kids[..i])) || HasRegExp(Flatten(kids[i]))
    ensures HasClass(FlattenAll(kids[..i + 1])) <==> HasClass(FlattenAll(kids[..i])) || HasClass(Flatten(kids[i]))
    ensures kids[i].RSelf? ==> !HasRegExp(Flatten(kids[i])) && !HasClass(Flatten(kids[i]))
  {
    NextKid(kids, i);
    FeaturesConcat(FlattenAll(kids[..i]), Flatten(kids[i]));
  }

  /** Fits, one child further. */
  lemma {:induction false} FitsNext(kids: seq<RCode>, i: nat, off: nat, limit: nat)
    requires i < |kids|
    ensures Fits(FlattenAll(kids[..i + 1]), off, limit)
            <==> Fits(FlattenAll(kids[..i]), off, limit) && Fits(Flatten(kids[i]), off + SubsSize(kids[..i]), limit)
    ensures kids[i].RSelf? ==> Fits(Flatten(kids[i]), off + SubsSize(kids[..i]), limit)
  {
    NextKid(kids, i);
    FitsConcat(FlattenAll(kids[..i]), Flatten(kids[i]), off, limit);
    FlattenAllSize(kids[..i]);
  }

  /** Fits, of a function: its own block and then its children. */
  lemma {:induction false} FunctionFits(c: Code, resolve: Resolver, off: nat, limit: nat)
    requires GoodCode(c) && c.Function?
    ensures Fits(Flatten(Meaning(c, resolve)), off, limit)
            <==> && off <= MAXIMUM_WRITE_OFFSET && !HasFlag(Flags(c.bytes), FLAG_TAGGED_LITERALS)
                 && off + |c.bytes| <= limit
                 && Fits(FlattenAll(MeaningAll(c.subs, resolve)), off + |c.bytes|, limit)
  {
    var r := Meaning(c, resolve);
    assert Flatten(r)[1..] == FlattenAll(r.subs);
    assert r.frame[4] == c.bytes[4] && r.frame[5] == c.bytes[5];
  }

  // ---------------------------------------------------------------- the writer

  /** `snapshot_globals_t` */
  class SnapshotGlobals {
    var writeOffset: nat
    var error: bool
    var regexFound: bool
    var classFound: bool

    constructor ()
      ensures writeOffset == SNAPSHOT_HEADER_SIZE && !error && !regexFound && !classFound
    {
      writeOffset, error, regexFound, classFound := SNAPSHOT_HEADER_SIZE, false, false, false;
    }

    /** `snapshot_write_to_buffer_by_offset` */
    method WriteToBuffer(buffer: array<Byte>, data: seq<Byte>) returns (ok: bool)
      modifies this`writeOffset, buffer
      ensures ok <==> old(writeOffset) + |data| <= buffer.Length
      ensures !ok ==> writeOffset == old(writeOffset) && buffer[..] == old(buffer[..])
      ensures ok ==> writeOffset == old(writeOffset) + |data|
      ensures ok ==> buffer[..] == Splice(old(buffer[..]), old(writeOffset), data)
    {
      if writeOffset + |data| > buffer.Length {
        return false;
      }
      CopyInto(buffer, writeOffset, data);
      writeOffset := writeOffset + |data|;
      return true;
    }

    /** `snapshot_add_compiled_code`. Without an earlier error it succeeds exactly when every block fits;
        the tree is then stored from the old write offset up to the new one, and nothing else changes. */
    method AddCompiledCode(c: Code, buffer: array<Byte>, ghost resolve: Resolver, ghost test: BlockTest)
      returns (startOffset: int)
      requires GoodCode(c) && !c.SelfCode? && Accepts(test, resolve)
      requires error || (writeOffset % 8 == 0 && writeOffset >= SNAPSHOT_HEADER_SIZE)
      modifies this, buffer
      ensures old(error) ==> error && buffer[..] == old(buffer[..]) && writeOffset == old(writeOffset)
      ensures !old(error) ==> (!error <==> Fits(Flatten(Meaning(c, resolve)), old(writeOffset), buffer.Length))
      ensures !error ==> startOffset == old(writeOffset) - SNAPSHOT_HEADER_SIZE && writeOffset % 8 == 0
      ensures !error ==> old(writeOffset) <= MAXIMUM_WRITE_OFFSET && writeOffset >= old(writeOffset)
      ensures !error ==> Wrote(Extended(old(buffer[..])), Extended(buffer[..]), old(writeOffset), writeOffset, test,
                               Flatten(Meaning(c, resolve)))
      ensures !error ==> regexFound == (old(regexFound) || HasRegExp(Flatten(Meaning(c, resolve))))
      ensures !error ==> classFound == (old(classFound) || HasClass(Flatten(Meaning(c, resolve))))
      decreases c, 2
    {
      startOffset := 0;
      hide Fits, Flatten, FlattenAll, Wrote, HasRegExp, HasClass, MeaningAll, Extended;
      if error {
        return;
      }
      FirstBlockFits(c, resolve, writeOffset, buffer.Length);
      if writeOffset > MAXIMUM_WRITE_OFFSET {
        error := true;
        return;
      }
      var flags := if c.RegExp? then c.flags else Flags(c.bytes);
      if HasFlag(flags, FLAG_TAGGED_LITERALS) {
        error := true;
        return;
      }
      if IsConstructor(flags) {
        classFound := true;
      }
      if !IsFunction(flags) {
        RegExpFeatures(c, resolve);
        startOffset := AddRegExp(c, buffer, resolve, test);
        return;
      }
      FunctionFeatures(c, resolve);
      startOffset := AddFunction(c, buffer, resolve, test);
    }

    /** Lines 178-227. */
    method AddRegExp(c: Code, buffer: array<Byte>, ghost resolve: Resolver, ghost test: BlockTest)
      returns (startOffset: int)
      requires GoodCode(c) && c.RegExp? && Accepts(test, resolve)
      requires !error && writeOffset % 8 == 0 && writeOffset <= MAXIMUM_WRITE_OFFSET
      requires !HasFlag(c.flags, FLAG_TAGGED_LITERALS)
      modifies this, buffer
      ensures !error <==> Fits(Flatten(Meaning(c, resolve)), old(writeOffset), buffer.Length)
      ensures !error ==> startOffset == old(writeOffset) - SNAPSHOT_HEADER_SIZE && writeOffset % 8 == 0 && regexFound
      ensures classFound == old(classFound) && writeOffset >= old(writeOffset)
      ensures !error ==> Wrote(Extended(old(buffer[..])), Extended(buffer[..]), old(writeOffset), writeOffset, test,
                               Flatten(Meaning(c, resolve)))
    {
      hide Wrote, Fits, Tagged, Put16, Splice, Extended;
      var start := writeOffset;
      var pattern := c.pattern;
      ghost var s := buffer[..];
      AlignUp8Fits(start, REGEXP_HEADER + |pattern|);
      OneFits(RegExpBlock(c.flags, pattern), writeOffset, buffer.Length);
      assert Flatten(Meaning(c, resolve)) == [RegExpBlock(c.flags, pattern)];
      RegExpTag(c.flags, pattern);
      if writeOffset + REGEXP_HEADER > buffer.Length {
        error := true;
        return 0;
      }
      writeOffset := writeOffset + REGEXP_HEADER;
      var ok := WriteToBuffer(buffer, pattern);
      if !ok {
        error := true;
        return 0;
      }
      regexFound := true;
      writeOffset := AlignUp8(writeOffset);
      startOffset := start - SNAPSHOT_HEADER_SIZE;
      WriteRegExpHeader(buffer, start, c.flags, pattern, s, resolve, test);
    }

    /** Lines 270-286: the sub-functions and regular expressions of a function, behind its block. */
    method AddSlots(c: Code, buffer: array<Byte>, start: nat, ghost s: seq<Byte>, ghost resolve: Resolver, ghost test: BlockTest)
      requires GoodCode(c) && c.Function? && Accepts(test, resolve)
      requires !error && start % 8 == 0 && SNAPSHOT_HEADER_SIZE <= start <= MAXIMUM_WRITE_OFFSET
      requires writeOffset == start + |c.bytes| <= buffer.Length
      requires SlotsWritten(s, Extended(buffer[..]), start, c.bytes, writeOffset, MeaningAll(c.subs, resolve), 0, test)
      modifies this, buffer
      ensures var kids := MeaningAll(c.subs, resolve)[..|c.subs|];
              && (!error <==> Fits(FlattenAll(kids), start + |c.bytes|, buffer.Length))
              && (!error ==> writeOffset % 8 == 0 && writeOffset >= start)
              && (!error ==> SlotsWritten(s, Extended(buffer[..]), start, c.bytes, writeOffset, MeaningAll(c.subs, resolve), |c.subs|, test))
              && (!error ==> regexFound == (old(regexFound) || HasRegExp(FlattenAll(kids))))
              && (!error ==> classFound == (old(classFound) || HasClass(FlattenAll(kids))))
      decreases c, 0
    {
      hide Fits, HasRegExp, HasClass, Flatten, FlattenAll, SubsSize, Splice, Put32, SlotPos, FunctionBytes, Wrote, SlotsWritten, Meaning, MeaningAll,
           Extended;
      var startOffset := start - SNAPSHOT_HEADER_SIZE;
      ghost var kids := MeaningAll(c.subs, resolve);
      BlockLength(c.bytes, start);
      NoneYet(kids, start + |c.bytes|, buffer.Length);
      var i := 0;
      while i < SlotCount(c.bytes)
        invariant 0 <= i <= SlotCount(c.bytes) && (!error ==> writeOffset % 8 == 0 && writeOffset >= start + |c.bytes|)
        invariant !error <==> Fits(FlattenAll(kids[..i]), start + |c.bytes|, buffer.Length)
        invariant !error ==> SlotsWritten(s, Extended(buffer[..]), start, c.bytes, writeOffset, kids, i, test)
        invariant !error ==> regexFound == (old(regexFound) || HasRegExp(FlattenAll(kids[..i])))
        invariant !error ==> classFound == (old(classFound) || HasClass(FlattenAll(kids[..i])))
      {
        ghost var t, end := Extended(buffer[..]), writeOffset;
        SlotInside(c.bytes, i);
        if !error {
          SlotsEnd(s, t, start, c.bytes, end, kids, i, test);
        }
        FitsNext(kids, i, start + |c.bytes|, buffer.Length);
        FeaturesNext(kids, i);
        MeaningAt(c.subs, resolve, i);
        if c.subs[i].SelfCode? {
          ExtendedPut(buffer[..], start + SlotPos(c.bytes) + 4 * i, 0);
          Store32(buffer, start + SlotPos(c.bytes) + 4 * i, 0);
          if !error {
            SelfSlot(s, t, start, c.bytes, end, kids, i, test);
          }
        } else {
          var offset := AddCompiledCode(c.subs[i], buffer, resolve, test);
          ghost var u := Extended(buffer[..]);
          ExtendedPut(buffer[..], start + SlotPos(c.bytes) + 4 * i, Wrap(offset - startOffset));
          Store32(buffer, start + SlotPos(c.bytes) + 4 * i, Wrap(offset - startOffset));
          if !error {
            WrapNoop(offset - startOffset);
            ChildSlot(s, t, u, start, c.bytes, end, writeOffset, kids, i, test, end - start);
          }
        }
        i := i + 1;
      }
    }

    /** Lines 232-288. */
    method AddFunction(c: Code, buffer: array<Byte>, ghost resolve: Resolver, ghost test: BlockTest)
      returns (startOffset: int)
      requires GoodCode(c) && c.Function? && Accepts(test, resolve)
      requires !error && writeOffset % 8 == 0 && SNAPSHOT_HEADER_SIZE <= writeOffset <= MAXIMUM_WRITE_OFFSET
      requires !HasFlag(Flags(c.bytes), FLAG_TAGGED_LITERALS)
      modifies this, buffer
      ensures !error <==> Fits(Flatten(Meaning(c, resolve)), old(writeOffset), buffer.Length)
      ensures !error ==> startOffset == old(writeOffset) - SNAPSHOT_HEADER_SIZE && writeOffset % 8 == 0
      ensures !error ==> writeOffset >= old(writeOffset)
      ensures !error ==> Wrote(Extended(old(buffer[..])), Extended(buffer[..]), old(writeOffset), writeOffset, test,
                               Flatten(Meaning(c, resolve)))
      ensures !error ==> regexFound == (old(regexFound) || HasRegExp(FlattenAll(MeaningAll(c.subs, resolve))))
      ensures !error ==> classFound == (old(classFound) || HasClass(FlattenAll(MeaningAll(c.subs, resolve))))
      decreases c, 1
    {
      hide Fits, HasRegExp, HasClass, Flatten, FlattenAll, SubsSize, Splice, Put32, SlotPos, FunctionBytes, Wrote, SlotsWritten, Meaning, MeaningAll,
           Extended;
      var start := writeOffset;
      startOffset := start - SNAPSHOT_HEADER_SIZE;
      ghost var s := Extended(buffer[..]);
      ghost var kids := MeaningAll(c.subs, resolve);
      FunctionFits(c, resolve, start, buffer.Length);
      BlockLength(c.bytes, start);
      ghost var plain := buffer[..];
      var ok := WriteToBuffer(buffer, c.bytes);
      if !ok {
        error := true;
        return 0;
      }
      ExtendedSplice(plain, start, c.bytes);
      SlotsStart(s, start, c.bytes, kids, test);
      AddSlots(c, buffer, start, s, resolve, test);
      assert kids[..|c.subs|] == kids;
      if !error {
        SlotsDone(s, Extended(buffer[..]), start, c, writeOffset, resolve, test);
      }
    }
  }

  lemma BlockLength(b: seq<Byte>, start: nat)
    requires FunctionBytes(b) && start % 8 == 0
    ensures (start + |b|) % 8 == 0 && |b| > 0
  {
  }

  lemma SlotsEnd(s: seq<Byte>, t: seq<Byte>, start: nat, b: seq<Byte>, end: nat, kids: seq<RCode>, i: nat, test: BlockTest)
    requires FunctionBytes(b) && SlotsWritten(s, t, start, b, end, kids, i, test)
    ensures i <= |kids| && end == start + |b| + SubsSize(kids[..i])
  {
  }

  lemma {:induction false} NoneYet(kids: seq<RCode>, off: nat, limit: nat)
    ensures Fits(FlattenAll(kids[..0]), off, limit)
    ensures !HasRegExp(FlattenAll(kids[..0])) && !HasClass(FlattenAll(kids[..0]))
  {
    assert kids[..0] == [];
  }

  lemma {:induction false} RegExpFeatures(c: Code, resolve: Resolver)
    requires GoodCode(c) && c.RegExp?
    ensures HasRegExp(Flatten(Meaning(c, resolve))) && !HasClass(Flatten(Meaning(c, resolve)))
    ensures !IsConstructor(c.flags)
  {
    assert Flatten(Meaning(c, resolve))[1..] == [];
  }

  lemma RegExpTag(flags: Half, pattern: seq<Byte>)
    ensures Tagged(RegExpBlock(flags, pattern)) == HasFlag(flags, FLAG_TAGGED_LITERALS)
  {
  }

  /** The first block decides about the two errors that are found before anything is written. */
  lemma {:induction false} FirstBlockFits(c: Code, resolve: Resolver, off: nat, limit: nat)
    requires GoodCode(c) && !c.SelfCode?
    ensures Fits(Flatten(Meaning(c, resolve)), off, limit)
            ==> off <= MAXIMUM_WRITE_OFFSET && !HasFlag(if c.RegExp? then c.flags else Flags(c.bytes), FLAG_TAGGED_LITERALS)
  {
    if c.RegExp? {
      OneFits(RegExpBlock(c.flags, c.pattern), off, limit);
    } else {
      FunctionFits(c, resolve, off, limit);
    }
  }
}
