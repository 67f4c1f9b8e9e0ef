/** Changing the literal words of blocks and trees without touching their shape. */
module SnapshotMaps {
  import opened Words
  import opened Bytes
  import opened CodeBlocks
  import opened SnapshotModel

  type ValueMap = RValue -> RValue

  /** Literal words as they stand. */
  function Raw(): Resolver {
    (w: Word) => Direct(w)
  }

  function MapValues(values: seq<RValue>, f: ValueMap): (r: seq<RValue>)
    ensures |r| == |values|
    ensures forall i | 0 <= i < |r| :: r[i] == f(values[i])
  {
    seq(|values|, i requires 0 <= i < |values| => f(values[i]))
  }

  /** f on the constants and h on the serialisable values of a function. */
  function MapBlock(rb: RBlock, f: ValueMap, h: ValueMap): RBlock {
    if rb.FunctionBlock? then
      FunctionBlock(rb.frame, MapValues(rb.consts, f), rb.links, MapValues(rb.tail, h))
    else rb
  }

  function MapBlocks(blocks: seq<RBlock>, f: ValueMap, h: ValueMap): (r: seq<RBlock>)
    ensures |r| == |blocks|
    ensures forall i | 0 <= i < |r| :: r[i] == MapBlock(blocks[i], f, h)
  {
    seq(|blocks|, i requires 0 <= i < |blocks| => MapBlock(blocks[i], f, h))
  }

  function MapTree(r: RCode, f: ValueMap, h: ValueMap): RCode
    decreases r, 0
  {
    if r.RFunction? then RFunction(r.frame, MapValues(r.consts, f), MapTrees(r.subs, f, h), MapValues(r.tail, h))
    else r
  }

  function MapTrees(codes: seq<RCode>, f: ValueMap, h: ValueMap): (t: seq<RCode>)
    ensures |t| == |codes|
    decreases codes, 0
  {
    if codes == [] then [] else [MapTree(codes[0], f, h)] + MapTrees(codes[1..], f, h)
  }

  /** A word map, on unresolved values. */
  function Lift(m: Word -> Word): ValueMap {
    (v: RValue) => if v.Direct? then Direct(m(v.word)) else v
  }

  /** A resolver, on unresolved values. */
  function Resolving(resolve: Resolver): ValueMap {
    (v: RValue) => if v.Direct? then resolve(v.word) else v
  }

  function ResolveTree(r: RCode, resolve: Resolver): RCode {
    MapTree(r, Resolving(resolve), Resolving(resolve))
  }

  // ---------------------------------------------------------------- shape

  lemma {:induction false} MapTreeSize(r: RCode, f: ValueMap, h: ValueMap)
    ensures CodeSize(MapTree(r, f, h)) == CodeSize(r)
    decreases r, 1
  {
    if r.RFunction? {
      MapTreesSize(r.subs, f, h);
    }
  }

  lemma {:induction false} MapTreesSize(codes: seq<RCode>, f: ValueMap, h: ValueMap)
    ensures SubsSize(MapTrees(codes, f, h)) == SubsSize(codes)
    decreases codes, 1
  {
    if codes != [] {
      MapTreeSize(codes[0], f, h);
      MapTreesSize(codes[1..], f, h);
      assert MapTrees(codes, f, h)[1..] == MapTrees(codes[1..], f, h);
    }
  }

  lemma {:induction false} MapKeepsLinks(codes: seq<RCode>, f: ValueMap, h: ValueMap, off: nat)
    ensures Links(MapTrees(codes, f, h), off) == Links(codes, off)
    decreases |codes|
  {
    if codes != [] {
      MapTreeSize(codes[0], f, h);
      MapKeepsLinks(codes[1..], f, h, off + CodeSize(codes[0]));
      assert MapTrees(codes, f, h)[1..] == MapTrees(codes[1..], f, h);
    }
  }

  /** Laying out the changed tree is changing the blocks of the layout. */
  lemma {:induction false} FlattenMap(r: RCode, f: ValueMap, h: ValueMap)
    ensures Flatten(MapTree(r, f, h)) == MapBlocks(Flatten(r), f, h)
    decreases r, 1
  {
    if r.RFunction? {
      FlattenAllMap(r.subs, f, h);
      MapKeepsLinks(r.subs, f, h, |r.frame|);
    }
  }

  lemma {:induction false} FlattenAllMap(codes: seq<RCode>, f: ValueMap, h: ValueMap)
    ensures FlattenAll(MapTrees(codes, f, h)) == MapBlocks(FlattenAll(codes), f, h)
    decreases codes, 1
  {
    if codes != [] {
      FlattenMap(codes[0], f, h);
      FlattenAllMap(codes[1..], f, h);
      var t := MapTrees(codes, f, h);
      assert t[1..] == MapTrees(codes[1..], f, h) && t[0] == MapTree(codes[0], f, h);
    }
  }

  lemma {:induction false} MapBlocksSize(blocks: seq<RBlock>, f: ValueMap, h: ValueMap)
    ensures BlocksSize(MapBlocks(blocks, f, h)) == BlocksSize(blocks)
  {
    if blocks != [] {
      MapBlocksSize(blocks[1..], f, h);
      assert MapBlocks(blocks, f, h)[1..] == MapBlocks(blocks[1..], f, h);
    }
  }

  // ---------------------------------------------------------------- composition

  function Then(f: ValueMap, g: ValueMap): ValueMap {
    (v: RValue) => g(f(v))
  }

  /** The two pairs of maps do the same to every value that occurs in the blocks. */
  ghost predicate SameOn(blocks: seq<RBlock>, f: ValueMap, h: ValueMap, f': ValueMap, h': ValueMap) {
    forall i | 0 <= i < |blocks| :: blocks[i].FunctionBlock? ==>
      (forall v | v in blocks[i].consts :: f(v) == f'(v)) && (forall v | v in blocks[i].tail :: h(v) == h'(v))
  }

  lemma SameOnParts(a: seq<RBlock>, b: seq<RBlock>, f: ValueMap, h: ValueMap, f': ValueMap, h': ValueMap)
    requires SameOn(a + b, f, h, f', h')
    ensures SameOn(a, f, h, f', h') && SameOn(b, f, h, f', h')
  {
    assert forall i | 0 <= i < |a| :: (a + b)[i] == a[i];
    assert forall i | 0 <= i < |b| :: (a + b)[|a| + i] == b[i];
  }

  lemma MapValuesThen(values: seq<RValue>, f: ValueMap, g: ValueMap, f': ValueMap)
    requires forall v | v in values :: Then(f, g)(v) == f'(v)
    ensures MapValues(MapValues(values, f), g) == MapValues(values, f')
  {
    forall i | 0 <= i < |values|
      ensures g(f(values[i])) == f'(values[i])
    {
      assert values[i] in values && Then(f, g)(values[i]) == g(f(values[i]));
    }
  }

  /** Two changes in a row are one change, as far as the values that occur are concerned. */
  lemma {:induction false} MapTreeThen(r: RCode, f: ValueMap, h: ValueMap, g: ValueMap, f': ValueMap, h': ValueMap)
    requires SameOn(Flatten(r), Then(f, g), Then(h, g), f', h')
    ensures MapTree(MapTree(r, f, h), g, g) == MapTree(r, f', h')
    decreases r, 1
  {
    if r.RFunction? {
      var own := [FunctionBlock(r.frame, r.consts, Links(r.subs, |r.frame|), r.tail)];
      assert Flatten(r) == own + FlattenAll(r.subs);
      SameOnParts(own, FlattenAll(r.subs), Then(f, g), Then(h, g), f', h');
      assert own[0].FunctionBlock?;
      hide FlattenAll, Flatten, Links, Then, MapValues, SameOn;
      MapTreesThen(r.subs, f, h, g, f', h');
      MapValuesThen(r.consts, f, g, f');
      MapValuesThen(r.tail, h, g, h');
    }
  }

  lemma {:induction false} MapTreesThen(codes: seq<RCode>, f: ValueMap, h: ValueMap, g: ValueMap, f': ValueMap, h': ValueMap)
    requires SameOn(FlattenAll(codes), Then(f, g), Then(h, g), f', h')
    ensures MapTrees(MapTrees(codes, f, h), g, g) == MapTrees(codes, f', h')
    decreases codes, 1
  {
    if codes != [] {
      SameOnParts(Flatten(codes[0]), FlattenAll(codes[1..]), Then(f, g), Then(h, g), f', h');
      MapTreeThen(codes[0], f, h, g, f', h');
      MapTreesThen(codes[1..], f, h, g, f', h');
      assert MapTrees(codes, f, h)[1..] == MapTrees(codes[1..], f, h);
    }
  }

  /** Maps that agree on the values of a tree make the same tree of it. */
  lemma {:induction false} MapTreeSame(r: RCode, f: ValueMap, g: ValueMap)
    requires forall rb | rb in Flatten(r) :: rb.FunctionBlock? ==>
      (forall v | v in rb.consts :: f(v) == g(v)) && (forall v | v in rb.tail :: f(v) == g(v))
    ensures MapTree(r, f, f) == MapTree(r, g, g)
  {
    hide Flatten;
    var id: ValueMap := (v: RValue) => v;
    assert forall i | 0 <= i < |Flatten(r)| :: Flatten(r)[i] in Flatten(r);
    MapTreeThen(r, f, f, id, g, g);
    MapTreeThen(r, f, f, id, f, f);
  }

  /** Conversely, maps that make the same blocks agree on the values of the blocks. */
  lemma SameValues(blocks: seq<RBlock>, f: ValueMap, g: ValueMap)
    requires MapBlocks(blocks, f, f) == MapBlocks(blocks, g, g)
    ensures forall rb | rb in blocks :: rb.FunctionBlock? ==>
      (forall v | v in rb.consts :: f(v) == g(v)) && (forall v | v in rb.tail :: f(v) == g(v))
  {
    forall rb | rb in blocks && rb.FunctionBlock?
      ensures (forall v | v in rb.consts :: f(v) == g(v)) && (forall v | v in rb.tail :: f(v) == g(v))
    {
      var i :| 0 <= i < |blocks| && blocks[i] == rb;
      assert MapBlocks(blocks, f, f)[i] == MapBlocks(blocks, g, g)[i];
      SameValue(rb.consts, f, g);
      SameValue(rb.tail, f, g);
    }
  }

  lemma SameValue(values: seq<RValue>, f: ValueMap, g: ValueMap)
    requires MapValues(values, f) == MapValues(values, g)
    ensures forall v | v in values :: f(v) == g(v)
  {
    forall v | v in values
      ensures f(v) == g(v)
    {
      var i :| 0 <= i < |values| && values[i] == v;
      assert MapValues(values, f)[i] == MapValues(values, g)[i];
    }
  }

  // ---------------------------------------------------------------- reading through a resolver

  /** An unresolved block, read through a resolver. */
  lemma ResolvedIs(b: seq<Byte>, rb: RBlock, resolve: Resolver)
    requires BlockIs(b, Raw(), rb)
    ensures BlockIs(b, resolve, MapBlock(rb, Resolving(resolve), Resolving(resolve)))
  {
    if rb.FunctionBlock? {
      assert MapValues(rb.consts, Resolving(resolve)) == Values(b, HeaderSize(b), ConstCount(b), resolve);
      assert MapValues(rb.tail, Resolving(resolve)) == Values(b, TailPos(b), TailCount(b), resolve);
    }
  }

  lemma {:induction false} ResolvedCons(s: seq<Byte>, pos: nat, rb: RBlock, rest: seq<RBlock>, resolve: Resolver)
    requires var n := BlockSize(rb); pos + n <= |s| && BlockIs(s[pos..pos + n], Raw(), rb)
    requires BlocksAt(s, pos + BlockSize(rb), Test(resolve), MapBlocks(rest, Resolving(resolve), Resolving(resolve)))
    ensures BlocksAt(s, pos, Test(resolve), MapBlocks([rb] + rest, Resolving(resolve), Resolving(resolve)))
  {
    hide BlocksAt, BlockIs;
    var f := Resolving(resolve);
    ResolvedIs(s[pos..pos + BlockSize(rb)], rb, resolve);
    assert MapBlocks([rb] + rest, f, f) == [MapBlock(rb, f, f)] + MapBlocks(rest, f, f);
    assert BlockSize(MapBlock(rb, f, f)) == BlockSize(rb);
    BlocksAtCons(s, pos, Test(resolve), MapBlock(rb, f, f), MapBlocks(rest, f, f));
  }

  lemma {:induction false} ResolvedAt(s: seq<Byte>, pos: nat, blocks: seq<RBlock>, resolve: Resolver)
    requires BlocksAt(s, pos, Test(Raw()), blocks)
    ensures BlocksAt(s, pos, Test(resolve), MapBlocks(blocks, Resolving(resolve), Resolving(resolve)))
    decreases |blocks|
  {
    if blocks == [] {
      assert MapBlocks(blocks, Resolving(resolve), Resolving(resolve)) == [];
      return;
    }
    hide BlocksAt, BlockIs, MapBlocks;
    var rb, rest := blocks[0], blocks[1..];
    BlocksAtFirst(s, pos, Test(Raw()), blocks);
    ResolvedAt(s, pos + BlockSize(rb), rest, resolve);
    ResolvedCons(s, pos, rb, rest, resolve);
    assert [rb] + rest == blocks;
  }

  /** A stored tree, read through a resolver. */
  lemma ResolvedStored(s: seq<Byte>, pos: nat, r: RCode, resolve: Resolver)
    requires StoredAt(s, pos, Test(Raw()), r)
    ensures StoredAt(s, pos, Test(resolve), ResolveTree(r, resolve))
  {
    ResolvedAt(s, pos, Flatten(r), resolve);
    FlattenMap(r, Resolving(resolve), Resolving(resolve));
  }

  /** A weaker test accepts what a stronger one does. */
  lemma {:induction false} BlocksWeaken(s: seq<Byte>, pos: nat, test: BlockTest, weaker: BlockTest, blocks: seq<RBlock>)
    requires BlocksAt(s, pos, test, blocks)
    requires forall b, rb {:trigger weaker(b, rb)} :: test(b, rb) ==> weaker(b, rb)
    ensures BlocksAt(s, pos, weaker, blocks)
    decreases |blocks|
  {
    if blocks != [] {
      BlocksWeaken(s, pos + BlockSize(blocks[0]), test, weaker, blocks[1..]);
    }
  }
}
