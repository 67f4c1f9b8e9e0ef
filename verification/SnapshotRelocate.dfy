/** The flat walks of jerry-core/api/jerry-snapshot.c that rewrite or collect the literal words of a code
    area, block by block. */
module SnapshotRelocate {
  import opened Words
  import opened Bytes
  import opened CodeBlocks
  import opened SnapshotModel
  import opened SnapshotLiterals
  import opened SnapshotMaps

  const FLAG_STATIC_FUNCTION := 0x100

  // ---------------------------------------------------------------- looking up a literal

  predicate InMap(litMap: seq<MapEntry>, id: Word) {
    exists entry | entry in litMap :: entry.id == id
  }

  /** The offset of the first entry for a literal. */
  function OffsetOf(litMap: seq<MapEntry>, id: Word): Word {
    if litMap == [] then 0 else if litMap[0].id == id then litMap[0].offset else OffsetOf(litMap[1..], id)
  }

  /** The search of lines 481-488: it has no bound, so the literal must be in the map. */
  method Lookup(litMap: seq<MapEntry>, id: Word) returns (offset: Word)
    requires InMap(litMap, id)
    ensures offset == OffsetOf(litMap, id)
  {
    var current := 0;
    while litMap[current].id != id
      invariant current < |litMap| && InMap(litMap[current..], id)
      invariant OffsetOf(litMap, id) == OffsetOf(litMap[current..], id)
      decreases |litMap| - current
    {
      assert litMap[current..][1..] == litMap[current + 1..];
      current := current + 1;
    }
    offset := litMap[current].offset;
  }

  /** Which words a walk replaces, and under which literal it looks them up. */
  datatype Rule = Rule(needs: Word -> bool, key: Word -> Word)

  function Moved(litMap: seq<MapEntry>, rule: Rule): Word -> Word {
    var Rule(needs, key) := rule;
    (w: Word) => if needs(w) then OffsetOf(litMap, key(w)) else w
  }

  /** Every lookup for these words succeeds. */
  predicate Covered(litMap: seq<MapEntry>, rule: Rule, values: seq<RValue>) {
    forall v | v in values :: v.Direct? && rule.needs(v.word) ==> InMap(litMap, rule.key(v.word))
  }

  // ---------------------------------------------------------------- one table of words

  method RelocateTable(buffer: array<Byte>, p: nat, n: nat, litMap: seq<MapEntry>, rule: Rule)
    requires p + 4 * n <= buffer.Length
    requires Covered(litMap, rule, Values(buffer[..], p, n, Raw()))
    modifies buffer
    ensures Agree(old(buffer[..]), buffer[..], 0, p) && Agree(old(buffer[..]), buffer[..], p + 4 * n, buffer.Length)
    ensures Values(buffer[..], p, n, Raw()) == MapValues(Values(old(buffer[..]), p, n, Raw()), Lift(Moved(litMap, rule)))
  {
    hide Put32, Get32, InMap, OffsetOf;
    ghost var s := buffer[..];
    for i := 0 to n
      invariant Agree(s, buffer[..], 0, p) && Agree(s, buffer[..], p + 4 * n, buffer.Length)
      invariant forall j | 0 <= j < i :: WordAt(buffer[..], p, j) == Moved(litMap, rule)(WordAt(s, p, j))
      invariant forall j | i <= j < n :: WordAt(buffer[..], p, j) == WordAt(s, p, j)
    {
      ghost var t := buffer[..];
      var w := Load32(buffer, p + 4 * i);
      assert w == WordAt(t, p, i);
      assert Values(s, p, n, Raw())[i] == Direct(w);
      if rule.needs(w) {
        var offset := Lookup(litMap, rule.key(w));
        Store32(buffer, p + 4 * i, offset);
        WordStored(t, p, n, i, offset);
        StoreInside(s, t, p, n, i, offset);
      }
    }
  }

  lemma StoreInside(s: seq<Byte>, t: seq<Byte>, p: nat, n: nat, i: nat, w: Word)
    requires i < n && p + 4 * n <= |t| && Agree(s, t, 0, p) && Agree(s, t, p + 4 * n, |s|)
    ensures Agree(s, Put32(t, p + 4 * i, w), 0, p) && Agree(s, Put32(t, p + 4 * i, w), p + 4 * n, |s|)
  {
    var u := Put32(t, p + 4 * i, w);
    PutAgrees(t, p + 4 * i, w);
    AgreeThen(s, t, u, 0, p, 0, p + 4 * i);
    AgreeThen(s, t, u, p + 4 * n, |s|, p + 4 * i + 4, |t|);
  }

  // ---------------------------------------------------------------- one block

  /** From block b to block c: new constants, new serialisable values, perhaps another reference count. */
  predicate BlockMoves(b: seq<Byte>, c: seq<Byte>, f: ValueMap, h: ValueMap)
    requires FunctionBytes(b)
  {
    && |c| == |b|
    && (forall k | 0 <= k < |b| && (!Volatile(b, k) || SlotPos(b) <= k < BodyPos(b)) :: c[k] == b[k])
    && Values(c, HeaderSize(b), ConstCount(b), Raw()) == MapValues(Values(b, HeaderSize(b), ConstCount(b), Raw()), f)
    && Values(c, TailPos(b), TailCount(b), Raw()) == MapValues(Values(b, TailPos(b), TailCount(b), Raw()), h)
  }

  lemma BlockMoved(b: seq<Byte>, c: seq<Byte>, rb: RBlock, f: ValueMap, h: ValueMap)
    requires rb.FunctionBlock? && BlockIs(b, Raw(), rb) && BlockMoves(b, c, f, h)
    ensures BlockIs(c, Raw(), MapBlock(rb, f, h))
  {
    FrameKept(b, c);
    TableKept(b, c, SlotPos(b), SlotCount(b));
    assert LinkWords(c) == LinkWords(b);
  }

  /** A test that also asks for the reference count that the loader wants to see. */
  function Counted(): BlockTest {
    (b: seq<Byte>, rb: RBlock) =>
      BlockIs(b, Raw(), rb) && (rb.FunctionBlock? ==> |b| >= 4 && Get16(b, 2) == 1)
  }

  /** What the walks read of a function block in place. */
  lemma FieldsInPlace(s: seq<Byte>, pos: nat, n: nat)
    requires pos + n <= |s| && FunctionBytes(s[pos..pos + n])
    ensures var b := s[pos..pos + n];
            && HeaderSize(b) + 4 * ConstCount(b) == SlotPos(b) && SlotPos(b) + 4 * SlotCount(b) == BodyPos(b)
            && BodyPos(b) <= TailPos(b) && TailPos(b) + 4 * TailCount(b) == n && 16 <= HeaderSize(b)
            && Values(s, pos + HeaderSize(b), ConstCount(b), Raw()) == Values(b, HeaderSize(b), ConstCount(b), Raw())
            && Values(s, pos + TailPos(b), TailCount(b), Raw()) == Values(b, TailPos(b), TailCount(b), Raw())
  {
    var b := s[pos..pos + n];
    ValuesInPlace(s, pos, n, HeaderSize(b), ConstCount(b));
    ValuesInPlace(s, pos, n, TailPos(b), TailCount(b));
  }

  lemma ValuesInPlace(s: seq<Byte>, pos: nat, n: nat, p: nat, count: nat)
    requires pos + n <= |s| && p + 4 * count <= n
    ensures Values(s, pos + p, count, Raw()) == Values(s[pos..pos + n], p, count, Raw())
  {
    var b := s[pos..pos + n];
    forall i | 0 <= i < count
      ensures WordAt(b, p, i) == WordAt(s, pos + p, i)
    {
      var q := p + 4 * i;
      SliceOfSlice(s, pos, pos + n, q, q + 4);
      SameGet(s, pos + q, b, q, 4);
    }
  }

  /** Three writes into a block: the constants, the serialisable values, and the reference count. */
  lemma WritesMoveBlock(s: seq<Byte>, t: seq<Byte>, u: seq<Byte>, pos: nat, n: nat, f: ValueMap, h: ValueMap)
    requires pos + n <= |s| && FunctionBytes(s[pos..pos + n])
    requires var b := s[pos..pos + n]; var p := pos + HeaderSize(b); var q := pos + SlotPos(b); var r := pos + TailPos(b);
             && Agree(s, t, 0, p) && Agree(s, t, q, |s|)
             && Values(t, p, ConstCount(b), Raw()) == MapValues(Values(s, p, ConstCount(b), Raw()), f)
             && Agree(t, u, 0, r) && Agree(t, u, pos + n, |s|)
             && Values(u, r, TailCount(b), Raw()) == MapValues(Values(t, r, TailCount(b), Raw()), h)
    ensures Agree(s, u, 0, pos) && Agree(s, u, pos + n, |s|)
    ensures BlockMoves(s[pos..pos + n], u[pos..pos + n], f, h)
  {
    hide HasHeader, HeaderSize, SlotPos, BodyPos, TailPos, ConstCount, SlotCount, TailCount, WordAt;
    var b := s[pos..pos + n];
    FieldsInPlace(s, pos, n);
    var p, q, r := pos + HeaderSize(b), pos + SlotPos(b), pos + TailPos(b);
    AgreeThen(s, t, u, 0, p, 0, r);
    AgreeThen(s, t, u, q, |s|, 0, r);
    AgreeThen(s, t, u, q, |s|, pos + n, |s|);
    ValuesAgree(t, u, p, ConstCount(b));
    ValuesAgree(s, t, r, TailCount(b));
    ValuesInPlace(u, pos, n, HeaderSize(b), ConstCount(b));
    ValuesInPlace(u, pos, n, TailPos(b), TailCount(b));
    LastingBytes(s, u, pos, n);
  }

  lemma LastingBytes(s: seq<Byte>, u: seq<Byte>, pos: nat, n: nat)
    requires pos + n <= |s| && FunctionBytes(s[pos..pos + n])
    requires var b := s[pos..pos + n];
             Agree(s, u, 0, pos + HeaderSize(b)) && Agree(s, u, pos + SlotPos(b), pos + TailPos(b))
    ensures var b, c := s[pos..pos + n], u[pos..pos + n];
            forall k | 0 <= k < |b| && (!Volatile(b, k) || SlotPos(b) <= k < BodyPos(b)) :: c[k] == b[k]
  {
    hide HasHeader, HeaderSize, SlotPos, BodyPos, TailPos;
    var b, c := s[pos..pos + n], u[pos..pos + n];
    FieldsInPlace(s, pos, n);
    forall k | 0 <= k < |b| && (!Volatile(b, k) || SlotPos(b) <= k < BodyPos(b))
      ensures c[k] == b[k]
    {
      assert k < HeaderSize(b) || (SlotPos(b) <= k < TailPos(b));
      assert u[pos + k] == s[pos + k];
    }
  }

  lemma ValuesAgree(s: seq<Byte>, t: seq<Byte>, p: nat, n: nat)
    requires Agree(s, t, p, p + 4 * n)
    ensures p + 4 * n <= |t| && Values(t, p, n, Raw()) == Values(s, p, n, Raw())
  {
    TableKept(s, t, p, n);
  }

  /** The reference count is not looked at by the block test. */
  lemma CountStored(t: seq<Byte>, pos: nat, n: nat, rb: RBlock, count: Half)
    requires pos + n <= |t| && rb.FunctionBlock? && BlockIs(t[pos..pos + n], Raw(), rb)
    ensures var u := Put16(t, pos + 2, count);
            BlockIs(u[pos..pos + n], Raw(), rb) && Get16(u[pos..pos + n], 2) == count
            && Agree(t, u, 0, pos) && Agree(t, u, pos + n, |t|)
  {
    var u := Put16(t, pos + 2, count);
    var b, c := t[pos..pos + n], u[pos..pos + n];
    GetPut16(t, pos + 2, count);
    assert forall k | 0 <= k < n && !(2 <= k < 4) :: c[k] == u[pos + k] == t[pos + k] == b[k];
    SliceOfSlice(u, pos, pos + n, 2, 4);
    SameGet(c, 2, u, pos + 2, 2);
    hide Put16;
    CountIgnored(b, c, rb);
  }

  lemma CountIgnored(b: seq<Byte>, c: seq<Byte>, rb: RBlock)
    requires rb.FunctionBlock? && BlockIs(b, Raw(), rb) && |c| == |b|
    requires forall k | 0 <= k < |b| && !(2 <= k < 4) :: c[k] == b[k]
    ensures BlockIs(c, Raw(), rb)
  {
    FrameKept(b, c);
    TableKept(b, c, HeaderSize(b), ConstCount(b));
    TableKept(b, c, SlotPos(b), SlotCount(b));
    TableKept(b, c, TailPos(b), TailCount(b));
    assert LinkWords(c) == LinkWords(b);
  }

  // ---------------------------------------------------------------- the block under the walk

  /** What a walk learns from the first bytes of the block at pos. */
  lemma BlockHere(s: seq<Byte>, pos: nat, rb: RBlock)
    requires pos + BlockSize(rb) <= |s| && BlockIs(s[pos..pos + BlockSize(rb)], Raw(), rb)
    ensures var n := BlockSize(rb);
            && n >= 8 && 8 * Get16(s, pos) as int == n
            && Get16(s, pos + 4) == Get16(s[pos..pos + n], 4)
            && (IsFunction(Get16(s, pos + 4)) <==> rb.FunctionBlock?)
            && (rb.FunctionBlock? ==> FunctionBytes(s[pos..pos + n]) && Get16(rb.frame, 4) == Get16(s, pos + 4))
  {
    var n := BlockSize(rb);
    var b := s[pos..pos + n];
    HeadHere(s, pos, n);
    if rb.FunctionBlock? {
      FrameHead(b);
    }
  }

  lemma HeadHere(s: seq<Byte>, pos: nat, n: nat)
    requires pos + n <= |s| && n >= 6
    ensures Get16(s[pos..pos + n], 0) == Get16(s, pos) && Get16(s[pos..pos + n], 4) == Get16(s, pos + 4)
  {
    SliceOfSlice(s, pos, pos + n, 0, 2);
    SameGet(s, pos, s[pos..pos + n], 0, 2);
    SliceOfSlice(s, pos, pos + n, 4, 6);
    SameGet(s, pos + 4, s[pos..pos + n], 4, 2);
  }

  lemma FrameHead(b: seq<Byte>)
    requires FunctionBytes(b)
    ensures Get16(Frame(b), 4) == Get16(b, 4)
  {
    assert Frame(b)[4] == b[4] && Frame(b)[5] == b[5];
  }

  /** The words of one function block are replaced. */
  method RelocateBlock(buffer: array<Byte>, pos: nat, size: nat, litMap: seq<MapEntry>, consts: Rule, tail: Rule,
                       ghost rb: RBlock)
    requires rb.FunctionBlock? && size == BlockSize(rb) && pos + size <= buffer.Length
    requires BlockIs(buffer[pos..pos + size], Raw(), rb)
    requires Covered(litMap, consts, rb.consts) && Covered(litMap, tail, rb.tail)
    modifies buffer
    ensures Agree(old(buffer[..]), buffer[..], 0, pos + 16)
    ensures Agree(old(buffer[..]), buffer[..], pos + size, buffer.Length)
    ensures BlockIs(buffer[pos..pos + size], Raw(), MapBlock(rb, Lift(Moved(litMap, consts)), Lift(Moved(litMap, tail))))
  {
    hide Covered, HasHeader, HeaderSize, ConstCount, TailPos, TailCount, SlotPos, Flags, BlockMoves;
    ghost var s := buffer[..];
    var b := buffer[pos..pos + size];
    assert s[pos..pos + size] == b;
    FieldsInPlace(s, pos, size);
    RelocateTable(buffer, pos + HeaderSize(b), ConstCount(b), litMap, consts);
    ghost var t := buffer[..];
    ValuesAgree(s, t, pos + TailPos(b), TailCount(b));
    RelocateTable(buffer, pos + TailPos(b), TailCount(b), litMap, tail);
    ghost var f, h := Lift(Moved(litMap, consts)), Lift(Moved(litMap, tail));
    AgreeThen(s, t, buffer[..], 0, pos + HeaderSize(b), 0, pos + TailPos(b));
    WritesMoveBlock(s, t, buffer[..], pos, size, f, h);
    BlockMoved(b, buffer[..][pos..pos + size], rb, f, h);
    assert buffer[..][pos..pos + size] == buffer[pos..pos + size];
  }

  // ---------------------------------------------------------------- walks over all blocks

  /** State of a walk that has dealt with the first k blocks. */
  ghost predicate Walking(s: seq<Byte>, t: seq<Byte>, start: nat, pos: nat, size: nat, blocks: seq<RBlock>, k: nat,
                          f: ValueMap, h: ValueMap, from: BlockTest, test: BlockTest) {
    && k <= |blocks| && pos == start + BlocksSize(blocks[..k]) && size == BlocksSize(blocks[k..])
    && Agree(s, t, 0, start) && Agree(s, t, pos, |s|) && pos + size <= |s|
    && BlocksAt(t, start, test, MapBlocks(blocks[..k], f, h))
    && BlocksAt(t, pos, from, blocks[k..])
  }

  /** The test implies that a block is what it is claimed to be. */
  ghost predicate Sound(test: BlockTest) {
    forall b, rb {:trigger test(b, rb)} :: test(b, rb) ==> BlockIs(b, Raw(), rb)
  }

  lemma {:induction false} WalkStarts(s: seq<Byte>, start: nat, blocks: seq<RBlock>, f: ValueMap, h: ValueMap, from: BlockTest, test: BlockTest)
    requires BlocksAt(s, start, from, blocks)
    ensures Walking(s, s, start, start, BlocksSize(blocks), blocks, 0, f, h, from, test)
  {
    BlocksFit(s, start, from, blocks);
    assert blocks[0..] == blocks && MapBlocks(blocks[..0], f, h) == [];
  }

  lemma {:induction false} NextHere(t: seq<Byte>, pos: nat, rest: seq<RBlock>, from: BlockTest)
    requires BlocksAt(t, pos, from, rest) && Sound(from)
    ensures BlocksSize(rest) > 0 <==> rest != []
    ensures rest != [] ==> var n := BlockSize(rest[0]);
              && 8 <= n <= BlocksSize(rest) && pos + n <= |t|
              && BlockIs(t[pos..pos + n], Raw(), rest[0]) && from(t[pos..pos + n], rest[0])
  {
    hide BlockIs, FunctionBytes, BlockSize;
    if rest != [] {
      BlocksAtFirst(t, pos, from, rest);
      BlockHere(t, pos, rest[0]);
    }
  }

  /** The block that comes next; the walk is over exactly when no byte is left. */
  lemma {:induction false} WalkNext(s: seq<Byte>, t: seq<Byte>, start: nat, pos: nat, size: nat, blocks: seq<RBlock>, k: nat,
                 f: ValueMap, h: ValueMap, from: BlockTest, test: BlockTest)
    requires Walking(s, t, start, pos, size, blocks, k, f, h, from, test) && Sound(from)
    ensures size > 0 <==> k < |blocks|
    ensures k < |blocks| ==> var n := BlockSize(blocks[k]);
              && 8 <= n <= size && pos + n <= |t|
              && BlockIs(t[pos..pos + n], Raw(), blocks[k]) && from(t[pos..pos + n], blocks[k])
  {
    hide BlockIs, BlocksAt, BlocksSize, BlockSize, MapBlocks, Sound;
    var rest := blocks[k..];
    NextHere(t, pos, rest, from);
    assert k < |blocks| ==> rest[0] == blocks[k];
  }

  lemma WalkStep(s: seq<Byte>, t: seq<Byte>, u: seq<Byte>, start: nat, pos: nat, size: nat, blocks: seq<RBlock>, k: nat,
                 f: ValueMap, h: ValueMap, from: BlockTest, test: BlockTest)
    requires Walking(s, t, start, pos, size, blocks, k, f, h, from, test) && k < |blocks|
    requires var n := BlockSize(blocks[k]);
             && Agree(t, u, 0, pos) && pos + n <= |u| && Agree(t, u, pos + n, |t|)
             && test(u[pos..pos + n], MapBlock(blocks[k], f, h))
    ensures BlockSize(blocks[k]) <= size
    ensures Walking(s, u, start, pos + BlockSize(blocks[k]), size - BlockSize(blocks[k]), blocks, k + 1, f, h, from, test)
  {
    hide BlocksAt, MapBlocks, BlockSize, MapBlock;
    var n := BlockSize(blocks[k]);
    assert blocks[..k + 1] == blocks[..k] + [blocks[k]];
    DoneGrows(t, u, start, pos, blocks[..k], blocks[k], f, h, test);
    TodoShrinks(t, u, pos, blocks, k, from);
    AgreeThen(s, t, u, 0, start, 0, pos);
    AgreeThen(s, t, u, pos, |s|, pos + n, |s|);
  }

  lemma {:induction false} DoneGrows(t: seq<Byte>, u: seq<Byte>, start: nat, pos: nat, done: seq<RBlock>, rb: RBlock,
                  f: ValueMap, h: ValueMap, test: BlockTest)
    requires pos == start + BlocksSize(done)
    requires BlocksAt(t, start, test, MapBlocks(done, f, h)) && Agree(t, u, 0, pos)
    requires pos + BlockSize(rb) <= |u| && test(u[pos..pos + BlockSize(rb)], MapBlock(rb, f, h))
    ensures pos + BlockSize(rb) == start + BlocksSize(done + [rb])
    ensures BlocksAt(u, start, test, MapBlocks(done + [rb], f, h))
  {
    hide BlocksAt, MapBlocks, BlockSize, MapBlock, BlocksSize, Agree;
    BlocksSizeConcat(done, [rb]);
    OneMapped(rb, f, h);
    var m := MapBlocks(done, f, h);
    MapBlocksSize(done, f, h);
    AgreePart(t, u, 0, pos, start, pos);
    BlocksKept(t, u, start, test, m);
    OneBlockAt(u, pos, test, MapBlock(rb, f, h));
    MapBlocksConcat(done, [rb], f, h);
    BlocksAtConcat(u, start, test, m, [MapBlock(rb, f, h)]);
  }

  lemma {:induction false} TodoShrinks(t: seq<Byte>, u: seq<Byte>, pos: nat, blocks: seq<RBlock>, k: nat, from: BlockTest)
    requires k < |blocks| && BlocksAt(t, pos, from, blocks[k..])
    requires Agree(t, u, pos + BlockSize(blocks[k]), |t|)
    ensures BlocksSize(blocks[k..]) == BlockSize(blocks[k]) + BlocksSize(blocks[k + 1..])
    ensures BlocksAt(u, pos + BlockSize(blocks[k]), from, blocks[k + 1..])
  {
    hide BlocksAt, BlockSize;
    var todo, n := blocks[k..], BlockSize(blocks[k]);
    assert todo[0] == blocks[k] && todo[1..] == blocks[k + 1..];
    BlocksAtFirst(t, pos, from, todo);
    BlocksFit(t, pos + n, from, todo[1..]);
    BlocksKept(t, u, pos + n, from, todo[1..]);
  }

  lemma OneMapped(rb: RBlock, f: ValueMap, h: ValueMap)
    ensures MapBlocks([rb], f, h) == [MapBlock(rb, f, h)] && BlockSize(MapBlock(rb, f, h)) == BlockSize(rb)
    ensures BlocksSize([rb]) == BlockSize(rb)
  {
    assert [rb][1..] == [];
  }

  lemma {:induction false} OneBlockAt(s: seq<Byte>, pos: nat, test: BlockTest, rb: RBlock)
    requires pos + BlockSize(rb) <= |s| && test(s[pos..pos + BlockSize(rb)], rb)
    ensures BlocksAt(s, pos, test, [rb])
  {
    assert [rb][1..] == [];
  }

  lemma MapBlocksConcat(a: seq<RBlock>, b: seq<RBlock>, f: ValueMap, h: ValueMap)
    ensures MapBlocks(a + b, f, h) == MapBlocks(a, f, h) + MapBlocks(b, f, h)
  {
  }

  /** No byte is left: every block has been dealt with. */
  lemma {:induction false} WalkEnds(s: seq<Byte>, t: seq<Byte>, start: nat, pos: nat, blocks: seq<RBlock>, k: nat,
                 f: ValueMap, h: ValueMap, from: BlockTest, test: BlockTest)
    requires Walking(s, t, start, pos, 0, blocks, k, f, h, from, test) && Sound(from)
    ensures BlocksAt(t, start, test, MapBlocks(blocks, f, h))
    ensures Agree(s, t, 0, start) && Agree(s, t, start + BlocksSize(blocks), |s|)
  {
    WalkNext(s, t, start, pos, 0, blocks, k, f, h, from, test);
    assert blocks[..k] == blocks;
  }

  // ---------------------------------------------------------------- jerry_snapshot_set_offsets

  /** Lines 473-490. */
  function SetConst(): Rule {
    Rule((w: Word) => IsString(w) || IsBigInt(w) || IsFloat(w), (w: Word) => w)
  }

  /** Lines 495-512. */
  function SetTail(): Rule {
    Rule((w: Word) => w != VALUE_EMPTY, (w: Word) => w)
  }

  ghost predicate AllCovered(litMap: seq<MapEntry>, consts: Rule, tail: Rule, blocks: seq<RBlock>) {
    forall rb | rb in blocks :: rb.FunctionBlock? ==>
      Covered(litMap, consts, rb.consts) && Covered(litMap, tail, rb.tail)
  }

  lemma MapBlockKind(rb: RBlock, f: ValueMap, h: ValueMap)
    ensures MapBlock(rb, f, h).FunctionBlock? <==> rb.FunctionBlock?
    ensures rb.RegExpBlock? ==> MapBlock(rb, f, h) == rb
    ensures BlockSize(MapBlock(rb, f, h)) == BlockSize(rb)
  {
  }

  /** Lines 455-515. */
  method SetBlock(buffer: array<Byte>, pos: nat, size: nat, litMap: seq<MapEntry>, ghost rb: RBlock)
    requires rb.FunctionBlock? && size == BlockSize(rb) && pos + size <= buffer.Length
    requires BlockIs(buffer[pos..pos + size], Raw(), rb)
    requires Covered(litMap, SetConst(), rb.consts) && Covered(litMap, SetTail(), rb.tail)
    modifies buffer
    ensures Agree(old(buffer[..]), buffer[..], 0, pos) && Agree(old(buffer[..]), buffer[..], pos + size, buffer.Length)
    ensures Counted()(buffer[pos..pos + size],
                      MapBlock(rb, Lift(Moved(litMap, SetConst())), Lift(Moved(litMap, SetTail()))))
  {
    hide BlockIs, Covered, MapBlock, FunctionBytes, BlockSize, Put16, Get16;
    ghost var t := buffer[..];
    RelocateBlock(buffer, pos, size, litMap, SetConst(), SetTail(), rb);
    ghost var u := buffer[..];
    ghost var moved := MapBlock(rb, Lift(Moved(litMap, SetConst())), Lift(Moved(litMap, SetTail())));
    assert u[pos..pos + size] == buffer[pos..pos + size];
    MapBlockKind(rb, Lift(Moved(litMap, SetConst())), Lift(Moved(litMap, SetTail())));
    BlockHere(u, pos, moved);
    CountStored(u, pos, size, moved, 1);
    Store16(buffer, pos + 2, 1);
    assert buffer[..][pos..pos + size] == buffer[pos..pos + size];
    AgreeThen(t, u, buffer[..], 0, pos, 0, pos);
    AgreeThen(t, u, buffer[..], pos + size, |t|, pos + size, |t|);
  }

  /** `jerry_snapshot_set_offsets`: with every lookup successful, the walk meets each block exactly once, ends
      exactly at the end of the area, replaces all literal words and sets all reference counts to 1. */
  method SetOffsets(buffer: array<Byte>, start: nat, size: nat, litMap: seq<MapEntry>, ghost blocks: seq<RBlock>)
    requires BlocksAt(buffer[..], start, Test(Raw()), blocks) && size == BlocksSize(blocks) && size > 0
    requires AllCovered(litMap, SetConst(), SetTail(), blocks)
    modifies buffer
    ensures BlocksAt(buffer[..], start, Counted(),
                     MapBlocks(blocks, Lift(Moved(litMap, SetConst())), Lift(Moved(litMap, SetTail()))))
    ensures Agree(old(buffer[..]), buffer[..], 0, start)
    ensures Agree(old(buffer[..]), buffer[..], start + size, buffer.Length)
  {
    hide BlocksAt, BlockIs, Walking, Covered, MapBlock, FunctionBytes, BlockSize, Put16, Get16, Moved;
    ghost var f, h := Lift(Moved(litMap, SetConst())), Lift(Moved(litMap, SetTail()));
    ghost var s, k := buffer[..], 0;
    RawSound();
    var pos, left := start, size;
    WalkStarts(s, start, blocks, f, h, Test(Raw()), Counted());
    WalkNext(s, s, start, pos, left, blocks, 0, f, h, Test(Raw()), Counted());
    while left > 0
      invariant pos >= 0 && left >= 0 && Walking(s, buffer[..], start, pos, left, blocks, k, f, h, Test(Raw()), Counted())
    {
      ghost var t := buffer[..];
      WalkNext(s, t, start, pos, left, blocks, k, f, h, Test(Raw()), Counted());
      ghost var rb := blocks[k];
      BlockHere(t, pos, rb);
      var units := Load16(buffer, pos);
      var flags := Load16(buffer, pos + 4);
      var codeSize := 8 * units as int;
      MapBlockKind(rb, f, h);
      assert t[pos..pos + codeSize] == buffer[pos..pos + codeSize];
      if IsFunction(flags) {
        assert rb in blocks;
        SetBlock(buffer, pos, codeSize, litMap, rb);
        assert buffer[..][pos..pos + codeSize] == buffer[pos..pos + codeSize];
      }
      WalkStep(s, t, buffer[..], start, pos, left, blocks, k, f, h, Test(Raw()), Counted());
      pos, left, k := pos + codeSize, left - codeSize, k + 1;
    }
    WalkEnds(s, buffer[..], start, pos, blocks, k, f, h, Test(Raw()), Counted());
  }

  lemma RawSound()
    ensures Sound(Test(Raw()))
  {
  }
}
