/** What the code area of a snapshot stands for: a tree of functions and regular expressions, laid out
    as a sequence of blocks in the order in which the recursive writer meets them. */
module SnapshotModel {
  import opened Words
  import opened Bytes
  import opened CodeBlocks

  /** The content of a literal, independent of where it is stored. */
  datatype Literal =
    | Text(text: seq<Byte>)
    | Number(bits: seq<Byte>)
    | BigInt(signAndSize: Word, digits: seq<Byte>)

  /** A literal word once it is resolved: a stored literal, or a directly encoded value. */
  datatype RValue = Stored(literal: Literal) | Direct(word: Word)

  /** How a literal word is read: from the engine's literal storage, or from a literal table. */
  type Resolver = Word -> RValue

  /** Resolved compiled code. RSelf only occurs in a slot: the function that owns the slot. */
  datatype RCode =
    | RFunction(frame: seq<Byte>, consts: seq<RValue>, subs: seq<RCode>, tail: seq<RValue>)
    | RRegExp(flags: Half, pattern: seq<Byte>)
    | RSelf

  /** One block of the code area; links are the offsets of sub-functions relative to this block. */
  datatype RBlock =
    | FunctionBlock(frame: seq<Byte>, consts: seq<RValue>, links: seq<nat>, tail: seq<RValue>)
    | RegExpBlock(flags: Half, pattern: seq<Byte>)

  // ---------------------------------------------------------------- one block

  function BlockSize(rb: RBlock): nat {
    match rb
    case FunctionBlock(frame, _, _, _) => |frame|
    case RegExpBlock(_, pattern) => AlignUp8(REGEXP_HEADER + |pattern|)
  }

  /** The words of a table, resolved. */
  function Values(b: seq<Byte>, p: nat, n: nat, resolve: Resolver): (v: seq<RValue>)
    requires p + 4 * n <= |b|
    ensures |v| == n
    ensures forall i | 0 <= i < n :: v[i] == resolve(WordAt(b, p, i))
  {
    seq(n, i requires 0 <= i < n => resolve(WordAt(b, p, i)))
  }

  function LinkWords(b: seq<Byte>): (v: seq<nat>)
    requires FunctionBytes(b)
    ensures |v| == SlotCount(b)
    ensures forall i | 0 <= i < |v| :: v[i] == WordAt(b, SlotPos(b), i)
  {
    seq(SlotCount(b), i requires 0 <= i < SlotCount(b) => WordAt(b, SlotPos(b), i))
  }

  function ReadBlock(b: seq<Byte>, resolve: Resolver): RBlock
    requires FunctionBytes(b)
  {
    FunctionBlock(Frame(b),
                  Values(b, HeaderSize(b), ConstCount(b), resolve),
                  LinkWords(b),
                  Values(b, TailPos(b), TailCount(b), resolve))
  }

  /** The bytes b are the block rb. The padding behind a pattern may hold anything. */
  predicate BlockIs(b: seq<Byte>, resolve: Resolver, rb: RBlock) {
    match rb
    case FunctionBlock(_, _, _, _) => FunctionBytes(b) && ReadBlock(b, resolve) == rb
    case RegExpBlock(flags, pattern) =>
      && |b| == BlockSize(rb) && 8 * Get16(b, 0) as int == |b|
      && Get16(b, 2) == |pattern| && Get16(b, 4) == flags && !IsFunction(flags)
      && b[REGEXP_HEADER..REGEXP_HEADER + |pattern|] == pattern
  }

  /** A test whether some bytes are a given block. */
  type BlockTest = (seq<Byte>, RBlock) -> bool

  function Test(resolve: Resolver): BlockTest {
    (b: seq<Byte>, rb: RBlock) => BlockIs(b, resolve, rb)
  }

  // ---------------------------------------------------------------- sequences of blocks

  function BlocksSize(blocks: seq<RBlock>): nat {
    if blocks == [] then 0 else BlockSize(blocks[0]) + BlocksSize(blocks[1..])
  }

  /** The blocks follow each other without a gap from position pos on. */
  predicate BlocksAt(s: seq<Byte>, pos: nat, test: BlockTest, blocks: seq<RBlock>)
    decreases |blocks|
  {
    if blocks == [] then pos <= |s|
    else
      var n := BlockSize(blocks[0]);
      pos + n <= |s| && test(s[pos..pos + n], blocks[0]) && BlocksAt(s, pos + n, test, blocks[1..])
  }

  lemma {:induction false} BlocksAtFirst(s: seq<Byte>, pos: nat, test: BlockTest, blocks: seq<RBlock>)
    requires blocks != []
    ensures BlocksAt(s, pos, test, blocks)
            <==> var n := BlockSize(blocks[0]);
                 pos + n <= |s| && test(s[pos..pos + n], blocks[0]) && BlocksAt(s, pos + n, test, blocks[1..])
  {
  }

  lemma {:induction false} BlocksAtCons(s: seq<Byte>, pos: nat, test: BlockTest, rb: RBlock, rest: seq<RBlock>)
    requires pos + BlockSize(rb) <= |s| && test(s[pos..pos + BlockSize(rb)], rb)
    requires BlocksAt(s, pos + BlockSize(rb), test, rest)
    ensures BlocksAt(s, pos, test, [rb] + rest)
  {
    assert ([rb] + rest)[1..] == rest;
  }

  lemma {:induction false} BlocksSizeConcat(a: seq<RBlock>, b: seq<RBlock>)
    ensures BlocksSize(a + b) == BlocksSize(a) + BlocksSize(b)
  {
    if a == [] {
      assert a + b == b;
    } else {
      BlocksSizeConcat(a[1..], b);
      assert (a + b)[1..] == a[1..] + b;
    }
  }

  lemma {:induction false} BlocksAtConcat(s: seq<Byte>, pos: nat, test: BlockTest, a: seq<RBlock>, b: seq<RBlock>)
    ensures BlocksAt(s, pos, test, a + b)
            <==> BlocksAt(s, pos, test, a) && BlocksAt(s, pos + BlocksSize(a), test, b)
    decreases |a|
  {
    if a == [] {
      assert a + b == b;
      if BlocksAt(s, pos, test, b) {
        BlocksFit(s, pos, test, b);
      }
    } else {
      BlocksAtConcat(s, pos + BlockSize(a[0]), test, a[1..], b);
      assert (a + b)[1..] == a[1..] + b;
    }
  }

  lemma {:induction false} BlocksFit(s: seq<Byte>, pos: nat, test: BlockTest, blocks: seq<RBlock>)
    requires BlocksAt(s, pos, test, blocks)
    ensures pos + BlocksSize(blocks) <= |s|
    decreases |blocks|
  {
    if blocks != [] {
      BlocksFit(s, pos + BlockSize(blocks[0]), test, blocks[1..]);
    }
  }

  /** Only the bytes of the blocks matter. */
  lemma {:induction false} BlocksAtFrame(s: seq<Byte>, pos: nat, t: seq<Byte>, pos': nat, test: BlockTest, blocks: seq<RBlock>)
    requires BlocksAt(s, pos, test, blocks)
    requires pos' + BlocksSize(blocks) <= |t|
    requires pos + BlocksSize(blocks) <= |s|
    requires t[pos'..pos' + BlocksSize(blocks)] == s[pos..pos + BlocksSize(blocks)]
    ensures BlocksAt(t, pos', test, blocks)
    decreases |blocks|
  {
    if blocks != [] {
      var n, rest := BlockSize(blocks[0]), BlocksSize(blocks[1..]);
      var u, v := s[pos..pos + (n + rest)], t[pos'..pos' + (n + rest)];
      assert s[pos..pos + n] == u[..n] && t[pos'..pos' + n] == v[..n];
      assert s[pos + n..pos + n + rest] == u[n..] && t[pos' + n..pos' + n + rest] == v[n..];
      BlocksAtFrame(s, pos + n, t, pos' + n, test, blocks[1..]);
    }
  }

  /** The same bytes at the same place hold the same blocks. */
  lemma {:induction false} BlocksKept(s: seq<Byte>, t: seq<Byte>, pos: nat, test: BlockTest, blocks: seq<RBlock>)
    requires BlocksAt(s, pos, test, blocks) && Agree(s, t, pos, pos + BlocksSize(blocks))
    ensures BlocksAt(t, pos, test, blocks)
  {
    AgreeSlice(s, t, pos, pos + BlocksSize(blocks));
    BlocksAtFrame(s, pos, t, pos, test, blocks);
  }

  // ---------------------------------------------------------------- trees

  function CodeSize(r: RCode): nat
    decreases r, 0
  {
    match r
    case RFunction(frame, _, subs, _) => |frame| + SubsSize(subs)
    case RRegExp(_, pattern) => AlignUp8(REGEXP_HEADER + |pattern|)
    case RSelf => 0
  }

  function SubsSize(subs: seq<RCode>): nat
    decreases subs, 0
  {
    if subs == [] then 0 else CodeSize(subs[0]) + SubsSize(subs[1..])
  }

  /** The link of every slot when the first child is placed at offset off; a self reference is 0. */
  function Links(subs: seq<RCode>, off: nat): (l: seq<nat>)
    ensures |l| == |subs|
    decreases |subs|
  {
    if subs == [] then []
    else [if subs[0].RSelf? then 0 else off] + Links(subs[1..], off + CodeSize(subs[0]))
  }

  /** A block before the blocks of its sub-functions, in slot order. */
  function Flatten(r: RCode): seq<RBlock>
    decreases r, 1
  {
    match r
    case RFunction(frame, consts, subs, tail) =>
      [FunctionBlock(frame, consts, Links(subs, |frame|), tail)] + FlattenAll(subs)
    case RRegExp(flags, pattern) => [RegExpBlock(flags, pattern)]
    case RSelf => []
  }

  function FlattenAll(codes: seq<RCode>): seq<RBlock>
    decreases codes, 1
  {
    if codes == [] then [] else Flatten(codes[0]) + FlattenAll(codes[1..])
  }

  lemma {:induction false} FlattenSize(r: RCode)
    ensures BlocksSize(Flatten(r)) == CodeSize(r)
    decreases r, 1
  {
    if r.RFunction? {
      FlattenAllSize(r.subs);
      assert Flatten(r)[1..] == FlattenAll(r.subs);
    } else if r.RRegExp? {
      assert Flatten(r)[1..] == [];
    }
  }

  lemma {:induction false} FlattenAllSize(codes: seq<RCode>)
    ensures BlocksSize(FlattenAll(codes)) == SubsSize(codes)
    decreases codes, 1
  {
    if codes != [] {
      FlattenSize(codes[0]);
      FlattenAllSize(codes[1..]);
      BlocksSizeConcat(Flatten(codes[0]), FlattenAll(codes[1..]));
    }
  }

  lemma {:induction false} FlattenAllConcat(a: seq<RCode>, b: seq<RCode>)
    ensures FlattenAll(a + b) == FlattenAll(a) + FlattenAll(b)
    ensures SubsSize(a + b) == SubsSize(a) + SubsSize(b)
  {
    if a == [] {
      assert a + b == b;
    } else {
      FlattenAllConcat(a[1..], b);
      assert (a + b)[1..] == a[1..] + b && (a + b)[0] == a[0];
      var x, y, z := Flatten(a[0]), FlattenAll(a[1..]), FlattenAll(b);
      assert x + (y + z) == (x + y) + z;
    }
  }

  /** The tree r is stored at position pos. */
  predicate StoredAt(s: seq<Byte>, pos: nat, test: BlockTest, r: RCode) {
    BlocksAt(s, pos, test, Flatten(r))
  }

  /** The i-th link of a stored function: 0 for a self reference, else the distance to the child, which
      is stored there. A link is 0 only for a self reference, so the two cannot be confused. */
  lemma LinkLeadsToChild(s: seq<Byte>, pos: nat, test: BlockTest, r: RCode, i: nat)
    requires r.RFunction? && |r.frame| > 0 && i < |r.subs| && StoredAt(s, pos, test, r)
    ensures var link := Links(r.subs, |r.frame|)[i];
            if r.subs[i].RSelf? then link == 0 else link > 0 && StoredAt(s, pos + link, test, r.subs[i])
  {
    LinkIs(r.subs, |r.frame|, i);
    var own := [Flatten(r)[0]];
    BlocksAtConcat(s, pos, test, own, FlattenAll(r.subs));
    assert BlocksSize(own) == |r.frame|;
    ChildStored(s, pos + |r.frame|, test, r.subs, i);
  }

  lemma {:induction false} LinkIs(codes: seq<RCode>, off: nat, i: nat)
    requires i < |codes|
    ensures Links(codes, off)[i] == if codes[i].RSelf? then 0 else off + SubsSize(codes[..i])
  {
    if i > 0 {
      LinkIs(codes[1..], off + CodeSize(codes[0]), i - 1);
      assert codes[1..][..i - 1] == codes[..i][1..];
    }
  }

  lemma {:induction false} ChildStored(s: seq<Byte>, pos: nat, test: BlockTest, codes: seq<RCode>, i: nat)
    requires i < |codes| && BlocksAt(s, pos, test, FlattenAll(codes))
    ensures StoredAt(s, pos + SubsSize(codes[..i]), test, codes[i])
  {
    hide BlocksAt, BlocksSize, SubsSize, Flatten;
    var left, rest := codes[..i], codes[i..];
    FlattenAllConcat(left, rest);
    assert left + rest == codes;
    FlattenAllSize(left);
    BlocksAtConcat(s, pos, test, FlattenAll(left), FlattenAll(rest));
    BlocksAtConcat(s, pos + SubsSize(left), test, Flatten(codes[i]), FlattenAll(rest[1..]));
  }
}
