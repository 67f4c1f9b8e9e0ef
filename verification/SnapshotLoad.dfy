/** `snapshot_load_compiled_code`: a stored tree becomes compiled code again, either copied or with its
    instructions left in the snapshot. What stands between instructions and serialisable values, the extended info,
    is left behind with the instructions, although the machine looks for it in the loaded block. */
module SnapshotLoad {
  import opened Words
  import opened Bytes
  import opened CodeBlocks
  import opened ExtendedInfo
  import opened SnapshotModel
  import opened SnapshotSave
  import opened SnapshotLiterals
  import opened SnapshotMaps
  import opened SnapshotRelocate
  import opened SnapshotFile

  const NO_COPY_THRESHOLD := 8 // BYTECODE_NO_COPY_THRESHOLD
  const POINTER_SIZE := 8 // sizeof (uint8_t *)
  const SET_BYTECODE_PTR := 84 // CBC_SET_BYTECODE_PTR

  // ---------------------------------------------------------------- loaded code

  /** Where the instructions of a loaded function are. */
  datatype Instructions = InBlock | InSnapshot(from: nat, to: nat)

  datatype Loaded =
    | LoadedFunction(block: seq<Byte>, body: Instructions, subs: seq<Loaded>)
    | LoadedRegExp(flags: Half, pattern: seq<Byte>)
    | LoadedSelf

  /** What the virtual machine sees of compiled code: the header fields behind size and reference count without the
      script value, instructions, literals and sub-functions, and the extended info as it finds it. */
  datatype View =
    | FunctionView(header: seq<Byte>, instructions: seq<Byte>, consts: seq<RValue>, subs: seq<View>, tail: seq<RValue>, info: Info)
    | PatternView(flags: Half, pattern: seq<Byte>)
    | SelfView

  /** The tables of a block lie inside it, however long the rest is. */
  predicate Shaped(b: seq<Byte>) {
    && HasHeader(b) && RegisterEnd(b) <= ConstLiteralEnd(b) <= LiteralEnd(b)
    && HeaderSize(b) + 4 * (LiteralEnd(b) - RegisterEnd(b)) + 4 * TailCount(b) <= |b|
  }

  function LiteralCount(b: seq<Byte>): nat
    requires Shaped(b)
  {
    LiteralEnd(b) - RegisterEnd(b)
  }

  function ConstantCount(b: seq<Byte>): nat
    requires Shaped(b)
  {
    ConstLiteralEnd(b) - RegisterEnd(b)
  }

  /** The trailing bytes of a block, a list of tagged templates and the serialisable values: a redirected copy takes them
      along, lines 621-643, and the extended info is looked for in front of them. */
  function ExtraBytes(b: seq<Byte>): nat
    requires HasHeader(b)
  {
    4 * TailCount(b) + (if HasFlag(Flags(b), FLAG_TAGGED_LITERALS) then 4 else 0)
  }

  /** Where the literal words of a block end. */
  function BodyStart(b: seq<Byte>): nat
    requires Shaped(b)
  {
    HeaderSize(b) + 4 * LiteralCount(b)
  }

  /** Where the extended info of a block ends. */
  function InfoEnd(b: seq<Byte>): nat
    requires Shaped(b)
  {
    if BodyStart(b) + ExtraBytes(b) <= |b| then |b| - ExtraBytes(b) else BodyStart(b)
  }

  predicate HasInfo(b: seq<Byte>)
    requires HasHeader(b)
  {
    HasFlag(Flags(b), FLAG_EXTENDED_INFO)
  }

  /** What is between the literal words and the place where the extended info ends. */
  function Area(b: seq<Byte>): seq<Byte>
    requires Shaped(b)
  {
    b[BodyStart(b)..InfoEnd(b)]
  }

  /** The extended info that is found at the end of an area, if the function has any. */
  function InfoIn(b: seq<Byte>, area: seq<Byte>): Info
    requires HasHeader(b)
  {
    if HasInfo(b) then ReadInfo(area).0 else NoInfo
  }

  /** `ecma_compiled_code_resolve_extended_info` and what is read from there. */
  function InfoOf(b: seq<Byte>): Info
    requires Shaped(b)
  {
    InfoIn(b, Area(b))
  }

  /** The instructions end in front of the extended info. */
  function InstructionsEnd(b: seq<Byte>): (e: nat)
    requires Shaped(b)
    ensures BodyStart(b) <= e <= |b| - 4 * TailCount(b)
  {
    if HasInfo(b) then BodyStart(b) + ReadInfo(Area(b)).1 else |b| - 4 * TailCount(b)
  }

  function InstructionBytes(d: seq<Byte>, body: Instructions, s: seq<Byte>): seq<Byte>
    requires Shaped(d)
  {
    match body
    case InBlock => d[BodyStart(d)..InstructionsEnd(d)]
    case InSnapshot(from, to) => if from <= to <= |s| then s[from..to] else []
  }

  /** Header bytes from byte 4 on, without the script value (bytes 8 to 11), which the loader sets. */
  function WithoutScript(header: seq<Byte>): seq<Byte> {
    if |header| >= 8 then header[..4] + header[8..] else header
  }

  function LoadedView(l: Loaded, s: seq<Byte>, heap: Resolver): View
    decreases l, 0
  {
    match l
    case LoadedFunction(b, body, subs) =>
      if Shaped(b) then
        var tailPos := |b| - 4 * TailCount(b);
        FunctionView(WithoutScript(b[4..HeaderSize(b)]),
                     InstructionBytes(b, body, s),
                     Values(b, HeaderSize(b), ConstantCount(b), heap),
                     LoadedViews(subs, s, heap),
                     Values(b, tailPos, TailCount(b), heap),
                     InfoOf(b))
      else SelfView
    case LoadedRegExp(flags, pattern) => PatternView(flags, pattern)
    case LoadedSelf => SelfView
  }

  function LoadedViews(codes: seq<Loaded>, s: seq<Byte>, heap: Resolver): (v: seq<View>)
    ensures |v| == |codes|
    decreases codes, 0
  {
    if codes == [] then [] else [LoadedView(codes[0], s, heap)] + LoadedViews(codes[1..], s, heap)
  }

  /** Every loaded function has reference count 1. */
  predicate OneReference(l: Loaded)
    decreases l, 0
  {
    l.LoadedFunction? ==> |l.block| >= 4 && Get16(l.block, 2) == 1 && OneReferences(l.subs)
  }

  predicate OneReferences(codes: seq<Loaded>)
    decreases codes, 0
  {
    codes != [] ==> OneReference(codes[0]) && OneReferences(codes[1..])
  }

  lemma {:induction false} OneReferencesAppend(codes: seq<Loaded>, last: Loaded)
    requires OneReferences(codes) && OneReference(last)
    ensures OneReferences(codes + [last])
  {
    if codes == [] {
      assert codes + [last] == [last] && [last][1..] == [];
    } else {
      assert (codes + [last])[1..] == codes[1..] + [last];
      OneReferencesAppend(codes[1..], last);
    }
  }

  /** A function with its parts in place, given the sub-functions and the extended info. */
  function FunctionSeen(r: RCode, subs: seq<View>, info: Info): View
    requires r.RFunction?
  {
    var f := r.frame;
    if FunctionBytes(f) then
      FunctionView(WithoutScript(f[4..HeaderSize(f)]), f[BodyStart(f)..InstructionsEnd(f)], r.consts, subs, r.tail, info)
    else SelfView
  }

  /** What the machine is to see of a resolved tree. */
  function ViewOf(r: RCode): View
    decreases r, 0
  {
    match r
    case RFunction(frame, _, subs, _) => FunctionSeen(r, ViewsOf(subs), OwnInfo(frame))
    case RRegExp(flags, pattern) => PatternView(flags, pattern)
    case RSelf => SelfView
  }

  function ViewsOf(codes: seq<RCode>): (v: seq<View>)
    ensures |v| == |codes|
    decreases codes, 0
  {
    if codes == [] then [] else [ViewOf(codes[0])] + ViewsOf(codes[1..])
  }

  function OwnInfo(frame: seq<Byte>): Info {
    if FunctionBytes(frame) then InfoOf(frame) else NoInfo
  }

  // ---------------------------------------------------------------- what a load makes of it

  type Address = a: seq<Byte> | |a| == POINTER_SIZE witness [0, 0, 0, 0, 0, 0, 0, 0]

  /** What a load finds in memory: the bytes of the fresh heap block for the code at a place of the snapshot, and
      the addresses of the bytes of the snapshot. */
  datatype Memory = Memory(garbage: (nat, nat) -> Byte, address: nat -> Address)

  /** There are enough instructions to leave them in the snapshot, line 605. */
  predicate Redirects(b: seq<Byte>)
    requires FunctionBytes(b)
  {
    HeaderSize(b) + 2 * (ConstCount(b) + SlotCount(b)) + NO_COPY_THRESHOLD <= |b|
  }

  /** The size of a redirected copy, lines 616-649. */
  function RedirectedSize(b: seq<Byte>): (n: nat)
    requires FunctionBytes(b)
    ensures n >= BodyPos(b) + 1 + POINTER_SIZE + ExtraBytes(b)
  {
    AlignUp8(BodyPos(b) + 1 + POINTER_SIZE + ExtraBytes(b))
  }

  function FreshBytes(memory: Memory, pos: nat, from: nat, to: nat): (s: seq<Byte>)
    requires from <= to
    ensures |s| == to - from
  {
    seq<Byte>(to - from, k requires 0 <= k < to - from => memory.garbage(pos, from + k))
  }

  /** What a redirected copy of the block at this place has where its extended info is looked for: the opcode and the
      pointer that lead to the instructions, and then whatever the heap held. */
  function Gap(b: seq<Byte>, pos: nat, memory: Memory): seq<Byte>
    requires FunctionBytes(b)
  {
    [SET_BYTECODE_PTR] + memory.address(pos + BodyPos(b))
    + FreshBytes(memory, pos, BodyPos(b) + 1 + POINTER_SIZE, RedirectedSize(b) - ExtraBytes(b))
  }

  function SeenInfo(frame: seq<Byte>, pos: nat, copy: bool, memory: Memory): Info {
    if !copy && FunctionBytes(frame) && Redirects(frame) then InfoIn(frame, Gap(frame, pos, memory)) else OwnInfo(frame)
  }

  /** What the machine sees of a tree that is loaded from this place. */
  function SeenView(r: RCode, pos: nat, copy: bool, memory: Memory): View
    decreases r, 0
  {
    match r
    case RFunction(frame, _, subs, _) =>
      FunctionSeen(r, SeenViews(subs, pos + |frame|, copy, memory), SeenInfo(frame, pos, copy, memory))
    case RRegExp(flags, pattern) => PatternView(flags, pattern)
    case RSelf => SelfView
  }

  function SeenViews(codes: seq<RCode>, pos: nat, copy: bool, memory: Memory): (v: seq<View>)
    ensures |v| == |codes|
    decreases codes, 0
  {
    if codes == [] then []
    else [SeenView(codes[0], pos, copy, memory)] + SeenViews(codes[1..], pos + CodeSize(codes[0]), copy, memory)
  }

  /** The extended info of this block stays behind when it is redirected. */
  predicate LeavesInfo(b: seq<Byte>) {
    FunctionBytes(b) && HasInfo(b) && Redirects(b)
  }

  /** Some function of the tree has extended info and is redirected. */
  predicate LosesInfo(r: RCode)
    decreases r, 0
  {
    r.RFunction? && FunctionBytes(r.frame) && (LeavesInfo(r.frame) || AnyLoses(r.subs))
  }

  predicate AnyLoses(codes: seq<RCode>)
    decreases codes, 0
  {
    codes != [] && (LosesInfo(codes[0]) || AnyLoses(codes[1..]))
  }

  lemma {:induction false} LosesMapped(r: RCode, f: ValueMap, h: ValueMap)
    ensures LosesInfo(MapTree(r, f, h)) <==> LosesInfo(r)
    decreases r, 1
  {
    if r.RFunction? {
      hide FunctionBytes, LeavesInfo;
      AnyLosesMapped(r.subs, f, h);
    }
  }

  lemma {:induction false} AnyLosesMapped(codes: seq<RCode>, f: ValueMap, h: ValueMap)
    ensures AnyLoses(MapTrees(codes, f, h)) <==> AnyLoses(codes)
    decreases codes, 1
  {
    if codes != [] {
      hide LosesInfo;
      LosesMapped(codes[0], f, h);
      AnyLosesMapped(codes[1..], f, h);
      assert MapTrees(codes, f, h)[1..] == MapTrees(codes[1..], f, h);
    }
  }

  /** A copying load shows the tree as it is, and a redirecting one does if no extended info is left behind. */
  lemma {:induction false} SeenSame(r: RCode, pos: nat, copy: bool, memory: Memory)
    requires copy || !LosesInfo(r)
    ensures SeenView(r, pos, copy, memory) == ViewOf(r)
    decreases r, 1
  {
    if r.RFunction? && FunctionBytes(r.frame) {
      hide FunctionBytes, FunctionSeen, LeavesInfo, SeenInfo, OwnInfo;
      SeenAllSame(r.subs, pos + |r.frame|, copy, memory);
      InfoSame(r.frame, pos, copy, memory);
    }
  }

  lemma InfoSame(frame: seq<Byte>, pos: nat, copy: bool, memory: Memory)
    requires copy || !LeavesInfo(frame)
    ensures SeenInfo(frame, pos, copy, memory) == OwnInfo(frame)
  {
    hide FunctionBytes, Area, Gap, Redirects, ReadInfo;
  }

  lemma {:induction false} SeenAllSame(codes: seq<RCode>, pos: nat, copy: bool, memory: Memory)
    requires copy || !AnyLoses(codes)
    ensures SeenViews(codes, pos, copy, memory) == ViewsOf(codes)
    decreases codes, 1
  {
    if codes != [] {
      hide LosesInfo, SeenView, ViewOf;
      SeenSame(codes[0], pos, copy, memory);
      SeenAllSame(codes[1..], pos + CodeSize(codes[0]), copy, memory);
    }
  }

  /** A heap with the same byte everywhere. */
  function Filled(value: Byte, address: nat -> Address): Memory {
    Memory((_: nat, _: nat) => value, address)
  }

  /** A gap ends with at least three bytes of the heap, so the flags and a short length are found there. */
  lemma FilledInfo(b: seq<Byte>, pos: nat, value: Byte, address: nat -> Address)
    requires FunctionBytes(b) && HasInfo(b) && value < 0x80 && value % 2 == 1
    ensures InfoIn(b, Gap(b, pos, Filled(value, address))) == Info(value, value)
  {
    hide FunctionBytes, HasInfo;
    GapEnds(b, pos, Filled(value, address));
    var gap := Gap(b, pos, Filled(value, address));
    assert gap[|gap| - 1] == value && gap[|gap| - 2] == value;
    hide Gap, Filled;
    ShortInfo(gap, value);
  }

  lemma GapEnds(b: seq<Byte>, pos: nat, memory: Memory)
    requires FunctionBytes(b)
    ensures |Gap(b, pos, memory)| >= 12
  {
    WordsOfBlock(b);
    hide FunctionBytes, BodyPos, ExtraBytes, AlignUp8;
    WordsBefore(BodyPos(b) + ExtraBytes(b));
  }

  lemma WordsOfBlock(b: seq<Byte>)
    requires FunctionBytes(b)
    ensures BodyPos(b) % 4 == 0 && ExtraBytes(b) % 4 == 0
  {
    hide TailCount, HasFlag, ConstCount, SlotCount, Wide, IsFunction, Get16, LiteralEnd, RegisterEnd, ConstLiteralEnd;
    assert BodyPos(b) == 4 * ((if Wide(b) then 6 else 4) + ConstCount(b) + SlotCount(b));
    assert ExtraBytes(b) == 4 * (TailCount(b) + (if HasFlag(Flags(b), FLAG_TAGGED_LITERALS) then 1 else 0));
  }

  lemma WordsBefore(n: nat)
    requires n % 4 == 0
    ensures AlignUp8(n + 1 + POINTER_SIZE) - n >= 12
  {
  }

  /** The opcode in a gap ends every number, so that nothing in front of the gap is ever read. */
  lemma GapComplete(b: seq<Byte>, pos: nat, memory: Memory)
    requires FunctionBytes(b)
    ensures Complete(Gap(b, pos, memory))
  {
    hide FunctionBytes;
    GapEnds(b, pos, memory);
    assert Gap(b, pos, memory)[0] == SET_BYTECODE_PTR;
    hide Gap;
  }

  lemma ShortInfo(s: seq<Byte>, value: Byte)
    requires |s| >= 2 && s[|s| - 1] == s[|s| - 2] == value && value < 0x80 && value % 2 == 1
    ensures ReadInfo(s).0 == Info(value, value)
  {
    LastDigit(s, |s| - 2, 0, value);
    WrapNoop(value);
  }

  /** Two heaps that show different info in every redirected function with extended info. */
  ghost predicate Apart(a: Memory, b: Memory) {
    forall f: seq<Byte>, p: nat | LeavesInfo(f) :: SeenInfo(f, p, false, a) != SeenInfo(f, p, false, b)
  }

  lemma FilledApart(address: nat -> Address)
    ensures Apart(Filled(1, address), Filled(3, address))
  {
    hide LeavesInfo, Filled, SeenInfo;
    forall f: seq<Byte>, p: nat | LeavesInfo(f)
      ensures SeenInfo(f, p, false, Filled(1, address)) != SeenInfo(f, p, false, Filled(3, address))
    {
      InfoDiffers(f, p, address);
    }
  }

  /** Where info is lost, they show two trees. */
  lemma {:induction false} SeenDiffers(r: RCode, pos: nat, a: Memory, b: Memory)
    requires LosesInfo(r) && Apart(a, b)
    ensures SeenView(r, pos, false, a) != SeenView(r, pos, false, b)
    decreases r, 1
  {
    hide FunctionBytes, LeavesInfo, FunctionSeen, SeenInfo, SeenViews, AnyLoses;
    if AnyLoses(r.subs) {
      SeenAllDiffer(r.subs, pos + |r.frame|, a, b);
    }
    SeenFunction(r, pos, false, a);
    SeenFunction(r, pos, false, b);
    hide SeenView;
    OtherParts(r, SeenViews(r.subs, pos + |r.frame|, false, a), SeenViews(r.subs, pos + |r.frame|, false, b),
               SeenInfo(r.frame, pos, false, a), SeenInfo(r.frame, pos, false, b));
  }

  lemma {:induction false} SeenFunction(r: RCode, pos: nat, copy: bool, memory: Memory)
    requires r.RFunction?
    ensures SeenView(r, pos, copy, memory)
         == FunctionSeen(r, SeenViews(r.subs, pos + |r.frame|, copy, memory), SeenInfo(r.frame, pos, copy, memory))
  {
    hide FunctionSeen, SeenInfo, SeenViews;
  }

  lemma OtherParts(r: RCode, subs: seq<View>, otherSubs: seq<View>, info: Info, other: Info)
    requires r.RFunction? && FunctionBytes(r.frame) && (subs != otherSubs || info != other)
    ensures FunctionSeen(r, subs, info) != FunctionSeen(r, otherSubs, other)
  {
    hide FunctionBytes, InstructionsEnd, BodyStart;
  }

  lemma InfoDiffers(b: seq<Byte>, pos: nat, address: nat -> Address)
    requires LeavesInfo(b)
    ensures SeenInfo(b, pos, false, Filled(1, address)) != SeenInfo(b, pos, false, Filled(3, address))
  {
    FilledInfo(b, pos, 1, address);
    FilledInfo(b, pos, 3, address);
    hide FunctionBytes, Redirects, InfoIn, Filled, Gap, HasInfo;
  }

  lemma {:induction false} SeenAllDiffer(codes: seq<RCode>, pos: nat, a: Memory, b: Memory)
    requires AnyLoses(codes) && Apart(a, b)
    ensures SeenViews(codes, pos, false, a) != SeenViews(codes, pos, false, b)
    decreases codes, 1
  {
    hide LosesInfo, SeenView, Apart;
    var v, w := SeenViews(codes, pos, false, a), SeenViews(codes, pos, false, b);
    if LosesInfo(codes[0]) {
      SeenDiffers(codes[0], pos, a, b);
      assert v[0] != w[0];
    } else {
      SeenAllDiffer(codes[1..], pos + CodeSize(codes[0]), a, b);
      assert v[1..] != w[1..];
    }
  }

  /** A redirecting load shows the tree for every content of the fresh heap blocks exactly if no function with extended
      info is redirected. */
  lemma {:induction false} RedirectExactly(r: RCode, pos: nat, address: nat -> Address)
    ensures (forall garbage: (nat, nat) -> Byte :: SeenView(r, pos, false, Memory(garbage, address)) == ViewOf(r)) <==> !LosesInfo(r)
  {
    hide LosesInfo, SeenView, ViewOf;
    if LosesInfo(r) {
      FilledApart(address);
      SeenDiffers(r, pos, Filled(1, address), Filled(3, address));
      assert Filled(1, address) == Memory(Filled(1, address).garbage, address);
      assert Filled(3, address) == Memory(Filled(3, address).garbage, address);
    } else {
      forall garbage: (nat, nat) -> Byte
        ensures SeenView(r, pos, false, Memory(garbage, address)) == ViewOf(r)
      {
        SeenSame(r, pos, false, Memory(garbage, address));
      }
    }
  }

  /** Where the children of a resolved tree are seen. */
  lemma {:induction false} SeenViewsAt(codes: seq<RCode>, f: ValueMap, pos: nat, copy: bool, memory: Memory, i: nat)
    requires i < |codes|
    ensures SeenViews(MapTrees(codes, f, f), pos, copy, memory)[i]
         == SeenView(MapTree(codes[i], f, f), pos + SubsSize(codes[..i]), copy, memory)
    decreases i
  {
    hide SeenView, MapTree;
    var t := MapTrees(codes, f, f);
    assert t[1..] == MapTrees(codes[1..], f, f) && t[0] == MapTree(codes[0], f, f);
    if i > 0 {
      SeenViewsAt(codes[1..], f, pos + CodeSize(codes[0]), copy, memory, i - 1);
      MapTreeSize(codes[0], f, f);
      assert codes[1..][..i - 1] == codes[..i][1..];
    }
  }

  lemma {:induction false} LoadedViewsAppend(codes: seq<Loaded>, last: Loaded, s: seq<Byte>, heap: Resolver)
    ensures LoadedViews(codes + [last], s, heap) == LoadedViews(codes, s, heap) + [LoadedView(last, s, heap)]
  {
    if codes == [] {
      assert codes + [last] == [last] && [last][1..] == [];
    } else {
      assert (codes + [last])[1..] == codes[1..] + [last];
      LoadedViewsAppend(codes[1..], last, s, heap);
    }
  }

  lemma {:induction false} MapTreesAt(codes: seq<RCode>, f: ValueMap, h: ValueMap, i: nat)
    requires i < |codes|
    ensures MapTrees(codes, f, h)[i] == MapTree(codes[i], f, h)
  {
    if i > 0 {
      MapTreesAt(codes[1..], f, h, i - 1);
    }
  }

  // ---------------------------------------------------------------- literals

  /** The engine's literal storage: `intern` finds or creates the word of a literal. It gives back the content of
      every literal that the values use. */
  ghost predicate Keeps(intern: Literal -> Word, content: Word -> Literal, table: seq<Byte>, values: seq<RValue>) {
    forall v | v in values && v.Direct? && IsOffset(v.word) && InTable(table, v.word) ::
      var l := GetLiteral(table, v.word); Poolable(intern(l)) && content(intern(l)) == l
  }

  ghost predicate KeepsAll(intern: Literal -> Word, content: Word -> Literal, table: seq<Byte>, blocks: seq<RBlock>) {
    forall rb | rb in blocks :: rb.FunctionBlock? ==>
      Keeps(intern, content, table, rb.consts) && Keeps(intern, content, table, rb.tail)
  }

  function Interned(intern: Literal -> Word, table: seq<Byte>, w: Word): Word {
    if IsOffset(w) && InTable(table, w) then intern(GetLiteral(table, w)) else w
  }

  function InternWord(intern: Literal -> Word, table: seq<Byte>): Word -> Word {
    (w: Word) => Interned(intern, table, w)
  }

  /** The loops of lines 681-687 and 711-719. */
  method InternTable(block: array<Byte>, p: nat, n: nat, table: seq<Byte>, intern: Literal -> Word)
    requires p + 4 * n <= block.Length && AllPortable(table, Values(block[..], p, n, Raw()))
    modifies block
    ensures Agree(old(block[..]), block[..], 0, p) && Agree(old(block[..]), block[..], p + 4 * n, block.Length)
    ensures Values(block[..], p, n, Raw()) == MapValues(Values(old(block[..]), p, n, Raw()), Lift(InternWord(intern, table)))
  {
    hide Put32, Get32, InTable, GetLiteral;
    ghost var s := block[..];
    for i := 0 to n
      invariant Agree(s, block[..], 0, p) && Agree(s, block[..], p + 4 * n, block.Length)
      invariant forall j | 0 <= j < i :: WordAt(block[..], p, j) == InternWord(intern, table)(WordAt(s, p, j))
      invariant forall j | i <= j < n :: WordAt(block[..], p, j) == WordAt(s, p, j)
    {
      ghost var t := block[..];
      var w := Load32(block, p + 4 * i);
      assert w == WordAt(t, p, i);
      assert Portable(table, Values(s, p, n, Raw())[i]);
      if IsOffset(w) {
        var literal := intern(GetLiteral(table, w));
        Store32(block, p + 4 * i, literal);
        WordStored(t, p, n, i, literal);
        StoreInside(s, t, p, n, i, literal);
      }
    }
  }

  lemma InternMeansValue(intern: Literal -> Word, content: Word -> Literal, table: seq<Byte>, values: seq<RValue>, v: RValue)
    requires v in values && Portable(table, v) && Keeps(intern, content, table, values)
    ensures Then(Lift(InternWord(intern, table)), Resolving(Through(content)))(v) == Resolving(TableResolver(table))(v)
  {
    hide InTable, GetLiteral, Poolable, IsOffset;
  }

  /** Interned words read through the storage are the offsets read through the table. */
  lemma InternMeans(intern: Literal -> Word, content: Word -> Literal, table: seq<Byte>, values: seq<RValue>)
    requires AllPortable(table, values) && Keeps(intern, content, table, values)
    ensures MapValues(MapValues(values, Lift(InternWord(intern, table))), Resolving(Through(content)))
            == MapValues(values, Resolving(TableResolver(table)))
  {
    hide Portable, Keeps, Then, MapValues, InternWord, Through, TableResolver, Lift, Resolving;
    var f, g, h := Lift(InternWord(intern, table)), Resolving(Through(content)), Resolving(TableResolver(table));
    forall v | v in values
      ensures Then(f, g)(v) == h(v)
    {
      InternMeansValue(intern, content, table, values, v);
    }
    MapValuesThen(values, f, g, h);
  }

  lemma ValuesThrough(b: seq<Byte>, p: nat, n: nat, resolve: Resolver)
    requires p + 4 * n <= |b|
    ensures Values(b, p, n, resolve) == MapValues(Values(b, p, n, Raw()), Resolving(resolve))
  {
  }

  // ---------------------------------------------------------------- one block, copied or redirected

  /** The loaded block c has the header, the literal words and the serialisable values of b. */
  ghost predicate CopyOf(b: seq<Byte>, c: seq<Byte>)
    requires FunctionBytes(b)
  {
    && Shaped(c) && HeaderSize(c) == HeaderSize(b) && TailCount(c) == TailCount(b)
    && ConstantCount(c) == ConstCount(b) && LiteralCount(c) == ConstCount(b) + SlotCount(b) && Flags(c) == Flags(b)
    && (forall k | 2 <= k < BodyPos(b) :: c[k] == b[k])
    && c[|c| - 4 * TailCount(b)..] == b[TailPos(b)..]
  }

  /** Equal headers announce equal tables. */
  lemma HeadsAgree(b: seq<Byte>, c: seq<Byte>)
    requires FunctionBytes(b) && |c| >= BodyPos(b) + 4 * TailCount(b)
    requires forall k | 2 <= k < HeaderSize(b) :: c[k] == b[k]
    ensures Shaped(c) && HeaderSize(c) == HeaderSize(b) && TailCount(c) == TailCount(b)
    ensures ConstantCount(c) == ConstCount(b) && LiteralCount(c) == ConstCount(b) + SlotCount(b) && Flags(c) == Flags(b)
  {
    assert c[4] == b[4] && c[5] == b[5];
    assert Get16(c, 4) == Get16(b, 4);
  }

  /** A fresh heap block x after lines 645-668. */
  function RedirectImage(x: seq<Byte>, b: seq<Byte>, units: Half, address: Address): seq<Byte>
    requires FunctionBytes(b) && |x| >= BodyPos(b) + 1 + POINTER_SIZE + ExtraBytes(b) && |b| >= ExtraBytes(b)
  {
    var y := Splice(Put16(Splice(x, 0, b[..BodyPos(b)]), 0, units), |x| - ExtraBytes(b), b[|b| - ExtraBytes(b)..]);
    Splice(y[BodyPos(b) := SET_BYTECODE_PTR], BodyPos(b) + 1, address)
  }

  lemma ExtraFits(b: seq<Byte>)
    requires FunctionBytes(b)
    ensures 4 * TailCount(b) <= ExtraBytes(b) <= |b| && 16 <= BodyPos(b) <= TailPos(b) == |b| - 4 * TailCount(b)
  {
  }

  lemma RedirectedCopy(x: seq<Byte>, b: seq<Byte>, units: Half, pos: nat, memory: Memory)
    requires FunctionBytes(b) && x == FreshBytes(memory, pos, 0, RedirectedSize(b))
    ensures |b| >= ExtraBytes(b)
    ensures var c := RedirectImage(x, b, units, memory.address(pos + BodyPos(b)));
            CopyOf(b, c) && Area(c) == Gap(b, pos, memory)
  {
    hide HasHeader, HeaderSize, TailCount, ConstCount, SlotCount, Splice, Put16, Get16, HasFlag, TailPos, BodyPos, ExtraBytes, CopyOf,
         AlignUp8, Area, FreshBytes, IsFunction, LiteralEnd, RegisterEnd, ConstLiteralEnd;
    ExtraFits(b);
    var start, extra := BodyPos(b), ExtraBytes(b);
    ImageBytes(x, b, units, start, extra, memory.address(pos + start));
    var c := RedirectImage(x, b, units, memory.address(pos + start));
    CopyMade(b, c, extra);
    AreaOfCopy(b, c);
    FreshPart(memory, pos, |x|, start + 1 + POINTER_SIZE, |x| - extra);
  }

  lemma FreshPart(memory: Memory, pos: nat, n: nat, from: nat, to: nat)
    requires from <= to <= n
    ensures FreshBytes(memory, pos, 0, n)[from..to] == FreshBytes(memory, pos, from, to)
  {
  }

  /** The parts of a redirected block. */
  lemma ImageBytes(x: seq<Byte>, b: seq<Byte>, units: Half, start: nat, extra: nat, address: Address)
    requires 2 <= start <= |b| && extra <= |b| && start + 1 + POINTER_SIZE + extra <= |x|
    ensures var y := Splice(Put16(Splice(x, 0, b[..start]), 0, units), |x| - extra, b[|b| - extra..]);
            var c := Splice(y[start := SET_BYTECODE_PTR], start + 1, address);
            && |c| == |x| && (forall k | 2 <= k < start :: c[k] == b[k]) && c[|c| - extra..] == b[|b| - extra..]
            && c[start..|c| - extra] == [SET_BYTECODE_PTR] + address + x[start + 1 + POINTER_SIZE..|x| - extra]
  {
    hide Splice, Put16;
    var y := Splice(Put16(Splice(x, 0, b[..start]), 0, units), |x| - extra, b[|b| - extra..]);
    RedirectedBytes(x, b, units, start, extra);
    PointerBytes(y, start, extra, address);
    assert Agree(x, y, start + 1 + POINTER_SIZE, |x| - extra);
    AgreeSlice(x, y, start + 1 + POINTER_SIZE, |x| - extra);
  }

  lemma AreaOfCopy(b: seq<Byte>, c: seq<Byte>)
    requires FunctionBytes(b) && CopyOf(b, c) && |c| >= BodyPos(b) + ExtraBytes(b)
    ensures Area(c) == c[BodyPos(b)..|c| - ExtraBytes(b)]
  {
    hide HasHeader, HeaderSize, TailCount, Get16, HasFlag;
  }

  /** The opcode and the pointer go between the literal words and the trailing bytes. */
  lemma PointerBytes(y: seq<Byte>, start: nat, extra: nat, address: Address)
    requires start + 1 + POINTER_SIZE + extra <= |y|
    ensures var c := Splice(y[start := SET_BYTECODE_PTR], start + 1, address);
            && |c| == |y| && (forall k | 0 <= k < start :: c[k] == y[k]) && c[|c| - extra..] == y[|y| - extra..]
            && c[start..|c| - extra] == [SET_BYTECODE_PTR] + address + y[start + 1 + POINTER_SIZE..|y| - extra]
  {
    var c, e := Splice(y[start := SET_BYTECODE_PTR], start + 1, address), start + 1 + POINTER_SIZE;
    assert c == y[..start] + [SET_BYTECODE_PTR] + address + y[e..];
    assert c == (y[..start] + ([SET_BYTECODE_PTR] + address + y[e..|y| - extra])) + y[|y| - extra..];
  }

  lemma CopyMade(b: seq<Byte>, c: seq<Byte>, extra: nat)
    requires FunctionBytes(b) && 4 * TailCount(b) <= extra <= |b| && |c| >= BodyPos(b) + extra
    requires (forall k | 2 <= k < BodyPos(b) :: c[k] == b[k]) && c[|c| - extra..] == b[|b| - extra..]
    ensures CopyOf(b, c)
  {
    hide Get16, HasFlag;
    HeadsAgree(b, c);
    LastPart(c, b, extra, 4 * TailCount(b));
  }

  lemma RedirectedBytes(x: seq<Byte>, b: seq<Byte>, units: Half, start: nat, extra: nat)
    requires 2 <= start <= |b| && extra <= |b| && start + extra <= |x|
    ensures var c := Splice(Put16(Splice(x, 0, b[..start]), 0, units), |x| - extra, b[|b| - extra..]);
            && |c| == |x| && (forall k | 2 <= k < start :: c[k] == b[k]) && c[|c| - extra..] == b[|b| - extra..]
            && forall k | start <= k < |x| - extra :: c[k] == x[k]
  {
    hide Get16;
    var z := Put16(Splice(x, 0, b[..start]), 0, units);
    HeadBytes(x, b, units, start);
    hide Put16, Splice;
    LastBytes(z, b[|b| - extra..]);
  }

  lemma HeadBytes(x: seq<Byte>, b: seq<Byte>, units: Half, start: nat)
    requires 2 <= start <= |b| && start <= |x|
    ensures forall k | 2 <= k < start :: Put16(Splice(x, 0, b[..start]), 0, units)[k] == b[k]
    ensures forall k | start <= k < |x| :: Put16(Splice(x, 0, b[..start]), 0, units)[k] == x[k]
  {
    var y := Splice(x, 0, b[..start]);
    assert y[..start] == y[0..start] == b[..start];
    forall k | 2 <= k < start
      ensures Put16(y, 0, units)[k] == b[k]
    {
      assert y[k] == y[..start][k] == b[..start][k];
    }
  }

  lemma LastBytes(z: seq<Byte>, data: seq<Byte>)
    requires |data| <= |z|
    ensures var c := Splice(z, |z| - |data|, data);
            c[..|z| - |data|] == z[..|z| - |data|] && c[|z| - |data|..] == data
            && forall k | 0 <= k < |z| - |data| :: c[k] == z[k]
  {
    var p := |z| - |data|;
    var c := Splice(z, p, data);
    assert c[p..] == c[p..p + |data|];
    forall k | 0 <= k < p
      ensures c[k] == z[k]
    {
      assert c[k] == c[..p][k] == z[..p][k];
    }
  }

  lemma WholeSplice(x: seq<Byte>, b: seq<Byte>)
    requires |x| == |b|
    ensures Splice(x, 0, b) == b
  {
  }

  lemma CopyOfItself(b: seq<Byte>)
    requires FunctionBytes(b)
    ensures CopyOf(b, b)
  {
    HeadsAgree(b, b);
  }

  lemma LastPart(c: seq<Byte>, b: seq<Byte>, m: nat, n: nat)
    requires n <= m <= |b| && m <= |c| && c[|c| - m..] == b[|b| - m..]
    ensures c[|c| - n..] == b[|b| - n..]
  {
    assert c[|c| - n..] == c[|c| - m..][m - n..];
    assert b[|b| - n..] == b[|b| - m..][m - n..];
  }

  /** Lines 605-671: the whole block, or, when there are enough instructions to make it worth while, the block
      without what is between the literal words and the trailing bytes. */
  method CopyBlock(s: seq<Byte>, pos: nat, size: nat, copy: bool, memory: Memory) returns (block: array<Byte>, body: Instructions)
    requires pos + size <= |s| && FunctionBytes(s[pos..pos + size])
    ensures fresh(block) && CopyOf(s[pos..pos + size], block[..])
    ensures LoadedFrom(s[pos..pos + size], pos, copy, memory, block[..], body)
  {
    hide CopyOf, Splice, Put16, HasHeader, HeaderSize, TailCount, ConstCount, SlotCount, Gap, Area, InstructionsEnd, BodyPos;
    var b := s[pos..pos + size];
    if copy || HeaderSize(b) + 2 * (ConstCount(b) + SlotCount(b)) + NO_COPY_THRESHOLD > size {
      block := new Byte[size];
      ghost var x := block[..];
      CopyInto(block, 0, b);
      WholeSplice(x, b);
      CopyOfItself(b);
      body := InBlock;
    } else {
      block := RedirectBlock(b, pos, memory);
      body := InSnapshot(pos + BodyPos(b), pos + InstructionsEnd(b));
    }
  }

  /** How the block b, stored at this place, has been loaded. */
  ghost predicate LoadedFrom(b: seq<Byte>, pos: nat, copy: bool, memory: Memory, c: seq<Byte>, body: Instructions)
    requires FunctionBytes(b) && CopyOf(b, c)
  {
    if copy || !Redirects(b) then c == b && body == InBlock
    else Area(c) == Gap(b, pos, memory) && body == InSnapshot(pos + BodyPos(b), pos + InstructionsEnd(b))
  }

  /** `jmem_heap_alloc_block`. */
  method FreshBlock(size: nat, pos: nat, memory: Memory) returns (block: array<Byte>)
    ensures fresh(block) && block[..] == FreshBytes(memory, pos, 0, size)
  {
    block := new Byte[size](k => memory.garbage(pos, k));
  }

  /** Lines 614-671. */
  method RedirectBlock(b: seq<Byte>, pos: nat, memory: Memory) returns (block: array<Byte>)
    requires FunctionBytes(b)
    ensures fresh(block) && CopyOf(b, block[..]) && Area(block[..]) == Gap(b, pos, memory)
  {
    hide CopyOf, Splice, Put16, HasHeader, HeaderSize, TailCount, ConstCount, SlotCount, Gap, Area, AlignUp8, HasFlag, FreshBytes,
         BodyPos, ExtraBytes, SlotPos, IsFunction, Get16;
    var start := BodyPos(b);
    var extra := ExtraBytes(b);
    ExtraFits(b);
    var newSize := AlignUp8(start + 1 + POINTER_SIZE + extra);
    block := FreshBlock(newSize, pos, memory);
    RedirectedCopy(block[..], b, newSize / 8 % 0x1_0000, pos, memory);
    CopyInto(block, 0, b[..start]);
    Store16(block, 0, newSize / 8 % 0x1_0000);
    CopyInto(block, newSize - extra, b[|b| - extra..]);
    StoreByte(block, start, SET_BYTECODE_PTR);
    CopyInto(block, start + 1, memory.address(pos + start));
  }

  method StoreByte(block: array<Byte>, p: nat, value: Byte)
    requires p < block.Length
    modifies block
    ensures block[..] == old(block[..])[p := value]
  {
    block[p] := value;
  }

  // ---------------------------------------------------------------- a whole tree

  /** The words of a copy are the words of the block. */
  lemma CopyWords(b: seq<Byte>, c: seq<Byte>)
    requires FunctionBytes(b) && CopyOf(b, c)
    ensures HeaderSize(b) + 4 * ConstCount(b) == SlotPos(b) && SlotPos(b) + 4 * SlotCount(b) == BodyPos(b)
    ensures BodyPos(b) + 4 * TailCount(b) <= |c| && 16 <= HeaderSize(b)
    ensures Values(c, HeaderSize(b), ConstCount(b), Raw()) == Values(b, HeaderSize(b), ConstCount(b), Raw())
    ensures Values(c, |c| - 4 * TailCount(b), TailCount(b), Raw()) == Values(b, TailPos(b), TailCount(b), Raw())
    ensures forall i | 0 <= i < SlotCount(b) :: WordAt(c, SlotPos(b), i) == WordAt(b, SlotPos(b), i)
  {
    TablesAlike(c, HeaderSize(b), b, HeaderSize(b), ConstCount(b));
    TablesAlike(c, SlotPos(b), b, SlotPos(b), SlotCount(b));
    var n, p := TailCount(b), |c| - 4 * TailCount(b);
    assert c[p..p + 4 * n] == c[p..] && b[TailPos(b)..TailPos(b) + 4 * n] == b[TailPos(b)..];
    SlicesAlike(c, p, b, TailPos(b), n);
  }

  lemma TablesAlike(c: seq<Byte>, p: nat, b: seq<Byte>, q: nat, n: nat)
    requires p == q && p + 4 * n <= |c| && q + 4 * n <= |b| && forall k | p <= k < p + 4 * n :: c[k] == b[k]
    ensures forall i | 0 <= i < n :: WordAt(c, p, i) == WordAt(b, q, i)
    ensures Values(c, p, n, Raw()) == Values(b, q, n, Raw())
  {
  }

  lemma SlicesAlike(c: seq<Byte>, p: nat, b: seq<Byte>, q: nat, n: nat)
    requires p + 4 * n <= |c| && q + 4 * n <= |b| && c[p..p + 4 * n] == b[q..q + 4 * n]
    ensures Values(c, p, n, Raw()) == Values(b, q, n, Raw())
  {
    ValuesInPlace(c, p, 4 * n, 0, n);
    ValuesInPlace(b, q, 4 * n, 0, n);
  }

  /** Interning changes neither the shape nor the header of a copy. */
  lemma ShapeKept(b: seq<Byte>, c: seq<Byte>, d: seq<Byte>)
    requires FunctionBytes(b) && CopyOf(b, c) && Agree(c, d, 0, HeaderSize(b))
    ensures Shaped(d) && HeaderSize(d) == HeaderSize(b) && TailCount(d) == TailCount(b)
    ensures ConstantCount(d) == ConstCount(b) && LiteralCount(d) == ConstCount(b) + SlotCount(b) && Flags(d) == Flags(b)
    ensures d[4..HeaderSize(b)] == b[4..HeaderSize(b)]
  {
    hide Get16;
    CopyWords(b, c);
    HeadsAgree(b, d);
  }

  /** What is inside a block depends on its header and on the bytes in front of the serialisable values. */
  lemma InsideKept(c: seq<Byte>, d: seq<Byte>)
    requires Shaped(c) && Shaped(d) && HeaderSize(d) == HeaderSize(c) && LiteralCount(d) == LiteralCount(c)
    requires TailCount(d) == TailCount(c) && Flags(d) == Flags(c) && Agree(c, d, BodyStart(c), |c| - 4 * TailCount(c))
    ensures Area(d) == Area(c) && InfoOf(d) == InfoOf(c) && BodyStart(d) == BodyStart(c) && InstructionsEnd(d) == InstructionsEnd(c)
    ensures d[BodyStart(c)..InstructionsEnd(c)] == c[BodyStart(c)..InstructionsEnd(c)]
  {
    hide HasHeader, HeaderSize, TailCount, LiteralCount, Flags, HasFlag, ReadInfo;
    AreaInside(c);
    AgreePart(c, d, BodyStart(c), |c| - 4 * TailCount(c), BodyStart(c), InfoEnd(c));
    AgreeSlice(c, d, BodyStart(c), InfoEnd(c));
    AgreePart(c, d, BodyStart(c), |c| - 4 * TailCount(c), BodyStart(c), InstructionsEnd(c));
    AgreeSlice(c, d, BodyStart(c), InstructionsEnd(c));
  }

  lemma AreaInside(c: seq<Byte>)
    requires Shaped(c)
    ensures BodyStart(c) <= InfoEnd(c) <= |c| - 4 * TailCount(c)
  {
    hide HasHeader, HeaderSize, TailCount, Flags, HasFlag;
  }

  /** The frame of a block shows its header, its instructions and its extended info. */
  lemma FrameShows(b: seq<Byte>)
    requires FunctionBytes(b)
    ensures var f := Frame(b);
            && FunctionBytes(f) && HeaderSize(f) == HeaderSize(b) && f[4..HeaderSize(b)] == b[4..HeaderSize(b)]
            && BodyStart(f) == BodyStart(b) == BodyPos(b) && InstructionsEnd(f) == InstructionsEnd(b)
            && f[BodyPos(b)..InstructionsEnd(b)] == b[BodyPos(b)..InstructionsEnd(b)]
  {
    FrameKept(b, Frame(b));
    hide Get16, HasFlag, HasHeader, InstructionsEnd, Area, InfoOf;
    InsideKept(b, Frame(b));
  }

  lemma FrameInfo(b: seq<Byte>, pos: nat, copy: bool, memory: Memory)
    requires FunctionBytes(b)
    ensures SeenInfo(Frame(b), pos, copy, memory)
         == if !copy && Redirects(b) then InfoIn(b, Gap(b, pos, memory)) else InfoOf(b)
  {
    FrameFields(b);
    hide Get16, HasFlag, HasHeader, InfoOf, ReadInfo, Gap, Frame, BodyPos, ExtraBytes, HasInfo, Redirects, TailCount, HeaderSize, RegisterEnd,
         ConstLiteralEnd, LiteralEnd;
    GapKept(b, Frame(b), pos, memory);
  }

  lemma GapKept(b: seq<Byte>, f: seq<Byte>, pos: nat, memory: Memory)
    requires FunctionBytes(b) && FunctionBytes(f) && BodyPos(f) == BodyPos(b) && ExtraBytes(f) == ExtraBytes(b)
    ensures Gap(f, pos, memory) == Gap(b, pos, memory)
  {
    hide BodyPos, ExtraBytes, FreshBytes, AlignUp8, Get16, HasFlag;
  }

  lemma FrameFields(b: seq<Byte>)
    requires FunctionBytes(b)
    ensures var f := Frame(b);
            && FunctionBytes(f) && BodyPos(f) == BodyPos(b) && ExtraBytes(f) == ExtraBytes(b)
            && (HasInfo(f) <==> HasInfo(b)) && (Redirects(f) <==> Redirects(b)) && InfoOf(f) == InfoOf(b)
  {
    FrameKept(b, Frame(b));
    hide Get16, HasFlag, HasHeader, InstructionsEnd, Area, ReadInfo;
    InsideKept(b, Frame(b));
  }

  /** From the copy c to the finished block d: constants interned, then serialisable values. */
  ghost predicate Finished(c: seq<Byte>, d: seq<Byte>, b: seq<Byte>, f: ValueMap)
    requires FunctionBytes(b) && CopyOf(b, c) && |c| >= BodyPos(b) + 4 * TailCount(b)
    requires HeaderSize(b) + 4 * ConstCount(b) <= BodyPos(b)
  {
    var tail := |c| - 4 * TailCount(b);
    && Agree(c, d, 0, HeaderSize(b)) && Agree(c, d, SlotPos(b), tail)
    && Values(d, HeaderSize(b), ConstCount(b), Raw()) == MapValues(Values(c, HeaderSize(b), ConstCount(b), Raw()), f)
    && Values(d, tail, TailCount(b), Raw()) == MapValues(Values(c, tail, TailCount(b), Raw()), f)
  }

  /** Two views are the same when their parts are. */
  lemma {:induction false} SameView(d: seq<Byte>, body: Instructions, subs: seq<Loaded>, s: seq<Byte>, heap: Resolver, r: RCode, info: Info)
    requires r.RFunction? && Shaped(d) && FunctionBytes(r.frame)
    requires HeaderSize(r.frame) == HeaderSize(d) && d[4..HeaderSize(d)] == r.frame[4..HeaderSize(d)]
    requires InstructionBytes(d, body, s) == r.frame[BodyStart(r.frame)..InstructionsEnd(r.frame)]
    requires Values(d, HeaderSize(d), ConstantCount(d), heap) == r.consts
    requires Values(d, |d| - 4 * TailCount(d), TailCount(d), heap) == r.tail
    requires InfoOf(d) == info
    ensures LoadedView(LoadedFunction(d, body, subs), s, heap) == FunctionSeen(r, LoadedViews(subs, s, heap), info)
  {
    hide HasHeader, HeaderSize, TailCount, InstructionBytes, InstructionsEnd, InfoOf, Values, BodyStart, ConstantCount, LoadedViews;
  }

  /** The finished block, as the machine sees it. */
  lemma {:induction false} FinishedView(s: seq<Byte>, pos: nat, copy: bool, memory: Memory, b: seq<Byte>, c: seq<Byte>, d: seq<Byte>,
                     body: Instructions, subs: seq<Loaded>,
                     raw: RCode, table: seq<Byte>, intern: Literal -> Word, content: Word -> Literal)
    requires raw.RFunction? && pos + |b| <= |s| && s[pos..pos + |b|] == b
    requires BlockIs(b, Raw(), FunctionBlock(raw.frame, raw.consts, Links(raw.subs, |raw.frame|), raw.tail))
    requires CopyOf(b, c) && |c| >= BodyPos(b) + 4 * TailCount(b) && HeaderSize(b) + 4 * ConstCount(b) <= BodyPos(b)
    requires Finished(c, d, b, Lift(InternWord(intern, table)))
    requires LoadedFrom(b, pos, copy, memory, c, body)
    requires AllPortable(table, raw.consts) && Keeps(intern, content, table, raw.consts)
    requires AllPortable(table, raw.tail) && Keeps(intern, content, table, raw.tail)
    requires LoadedViews(subs, s, Through(content))
             == SeenViews(ResolveTree(raw, TableResolver(table)).subs, pos + |raw.frame|, copy, memory)
    ensures LoadedView(LoadedFunction(d, body, subs), s, Through(content))
            == SeenView(ResolveTree(raw, TableResolver(table)), pos, copy, memory)
  {
    hide WordAt, Keeps, AllPortable, InternWord, LoadedView, LoadedViews, ViewOf, ViewsOf, FunctionSeen, SeenViews, SeenInfo, LoadedFrom,
         MapTrees, HasHeader, HeaderSize, ConstCount, SlotCount, TailCount, BodyPos, TailPos, SlotPos, Finished, BlockIs,
         InstructionBytes, InstructionsEnd, BodyStart, InfoOf, CopyOf, MapValues, Through, TableResolver, Links;
    BlockParts(b, raw);
    assert Agree(c, d, 0, HeaderSize(b)) && Agree(c, d, SlotPos(b), |c| - 4 * TailCount(b)) by {
      FinishedBytes(c, d, b, Lift(InternWord(intern, table)));
    }
    ShapeKept(b, c, d);
    FrameShows(b);
    FinishedTable(b, c, d, HeaderSize(b), ConstCount(b), HeaderSize(b), raw.consts, table, intern, content);
    FinishedTable(b, c, d, |c| - 4 * TailCount(b), TailCount(b), TailPos(b), raw.tail, table, intern, content);
    InsideSeen(s, pos, copy, memory, b, c, d, body);
    SameView(d, body, subs, s, Through(content), ResolveTree(raw, TableResolver(table)), SeenInfo(raw.frame, pos, copy, memory));
  }

  lemma {:induction false} BlockParts(b: seq<Byte>, raw: RCode)
    requires raw.RFunction? && BlockIs(b, Raw(), FunctionBlock(raw.frame, raw.consts, Links(raw.subs, |raw.frame|), raw.tail))
    ensures FunctionBytes(b) && raw.frame == Frame(b)
    ensures HeaderSize(b) + 4 * ConstCount(b) <= |b| && raw.consts == Values(b, HeaderSize(b), ConstCount(b), Raw())
    ensures TailPos(b) + 4 * TailCount(b) == |b| && raw.tail == Values(b, TailPos(b), TailCount(b), Raw())
    ensures |raw.subs| == SlotCount(b) && forall i | 0 <= i < SlotCount(b) :: WordAt(b, SlotPos(b), i) == Links(raw.subs, |b|)[i]
  {
    hide Links, WordAt;
    assert |LinkWords(b)| == SlotCount(b);
  }

  lemma FinishedBytes(c: seq<Byte>, d: seq<Byte>, b: seq<Byte>, f: ValueMap)
    requires FunctionBytes(b) && CopyOf(b, c) && |c| >= BodyPos(b) + 4 * TailCount(b)
    requires HeaderSize(b) + 4 * ConstCount(b) <= BodyPos(b) && Finished(c, d, b, f)
    ensures Agree(c, d, 0, HeaderSize(b)) && Agree(c, d, SlotPos(b), |c| - 4 * TailCount(b))
  {
  }

  /** One of the two tables of a finished block, read through the storage. */
  lemma FinishedTable(b: seq<Byte>, c: seq<Byte>, d: seq<Byte>, p: nat, n: nat, q: nat, values: seq<RValue>,
                      table: seq<Byte>, intern: Literal -> Word, content: Word -> Literal)
    requires FunctionBytes(b) && CopyOf(b, c) && |c| >= BodyPos(b) + 4 * TailCount(b)
    requires HeaderSize(b) + 4 * ConstCount(b) <= BodyPos(b) && Finished(c, d, b, Lift(InternWord(intern, table)))
    requires || (p == q == HeaderSize(b) && n == ConstCount(b))
             || (p == |c| - 4 * TailCount(b) && q == TailPos(b) && n == TailCount(b))
    requires q + 4 * n <= |b| && values == Values(b, q, n, Raw())
    requires AllPortable(table, values) && Keeps(intern, content, table, values)
    ensures p + 4 * n <= |d| && Values(d, p, n, Through(content)) == MapValues(values, Resolving(TableResolver(table)))
  {
    hide WordAt, Through, TableResolver, Keeps, AllPortable, InternWord, FunctionBytes, HasHeader;
    CopyWords(b, c);
    InternMeans(intern, content, table, values);
    ValuesThrough(d, p, n, Through(content));
  }

  /** The instructions are those of the stored block, wherever they are, and the extended info is what the loaded block has. */
  lemma InsideSeen(s: seq<Byte>, pos: nat, copy: bool, memory: Memory, b: seq<Byte>, c: seq<Byte>, d: seq<Byte>, body: Instructions)
    requires FunctionBytes(b) && pos + |b| <= |s| && s[pos..pos + |b|] == b && CopyOf(b, c)
    requires LoadedFrom(b, pos, copy, memory, c, body)
    requires |c| >= BodyPos(b) + 4 * TailCount(b) && Agree(c, d, SlotPos(b), |c| - 4 * TailCount(b))
    requires Shaped(d) && HeaderSize(d) == HeaderSize(b) && LiteralCount(d) == ConstCount(b) + SlotCount(b)
    requires TailCount(d) == TailCount(b) && Flags(d) == Flags(b)
    ensures InstructionBytes(d, body, s) == b[BodyStart(b)..InstructionsEnd(b)]
    ensures InfoOf(d) == SeenInfo(Frame(b), pos, copy, memory)
  {
    hide HasHeader, HeaderSize, TailCount, SlotCount, ConstCount, FunctionBytes, Get16, HasFlag, InstructionsEnd, Area, Gap, SeenInfo,
         Redirects, ReadInfo;
    InstructionsInside(b, c);
    InsideKept(c, d);
    FrameInfo(b, pos, copy, memory);
    if body.InSnapshot? {
      SliceOfSlice(s, pos, pos + |b|, BodyStart(b), InstructionsEnd(b));
    }
  }

  lemma InstructionsInside(b: seq<Byte>, c: seq<Byte>)
    requires FunctionBytes(b) && CopyOf(b, c)
    ensures Shaped(b) && SlotPos(b) <= BodyPos(b) == BodyStart(b) == BodyStart(c)
  {
    hide Get16, HasFlag;
  }

  // ---------------------------------------------------------------- snapshot_load_compiled_code

  /** What loading needs of a stored tree. */
  ghost predicate Loadable(s: seq<Byte>, pos: nat, table: seq<Byte>, intern: Literal -> Word, content: Word -> Literal,
                           raw: RCode) {
    && StoredAt(s, pos, Counted(), raw)
    && PortableBlocks(table, Flatten(raw)) && KeepsAll(intern, content, table, Flatten(raw))
  }

  /** The first block of a tree. */
  function OwnBlock(raw: RCode): RBlock
    requires !raw.RSelf?
  {
    if raw.RFunction? then FunctionBlock(raw.frame, raw.consts, Links(raw.subs, |raw.frame|), raw.tail)
    else RegExpBlock(raw.flags, raw.pattern)
  }

  lemma {:induction false} OwnBlockFirst(raw: RCode)
    requires !raw.RSelf?
    ensures Flatten(raw) != [] && Flatten(raw)[0] == OwnBlock(raw) && OwnBlock(raw) in Flatten(raw)
  {
    assert Flatten(raw)[0] in Flatten(raw);
  }

  /** The first block of a loadable tree. */
  lemma FirstBlock(s: seq<Byte>, pos: nat, table: seq<Byte>, intern: Literal -> Word, content: Word -> Literal, raw: RCode)
    requires Loadable(s, pos, table, intern, content, raw) && !raw.RSelf?
    ensures var n := BlockSize(OwnBlock(raw));
            && pos + n <= |s| && BlockIs(s[pos..pos + n], Raw(), OwnBlock(raw))
            && (raw.RFunction? ==> n >= 16 && Get16(s[pos..pos + n], 2) == 1)
    ensures raw.RFunction? ==> AllPortable(table, raw.consts) && Keeps(intern, content, table, raw.consts)
    ensures raw.RFunction? ==> AllPortable(table, raw.tail) && Keeps(intern, content, table, raw.tail)
  {
    hide BlockIs, Keeps, AllPortable, FunctionBytes, Flatten, BlocksAt;
    OwnBlockFirst(raw);
    BlocksAtFirst(s, pos, Counted(), Flatten(raw));
    var b := s[pos..pos + BlockSize(OwnBlock(raw))];
    assert Counted()(b, OwnBlock(raw));
    if raw.RFunction? {
      BlockParts(b, raw);
    }
  }

  /** The children of a loadable tree are loadable, where the links lead. */
  lemma ChildLoadable(s: seq<Byte>, pos: nat, table: seq<Byte>, intern: Literal -> Word, content: Word -> Literal,
                      raw: RCode, i: nat)
    requires Loadable(s, pos, table, intern, content, raw) && raw.RFunction? && |raw.frame| > 0 && i < |raw.subs|
    ensures var link := Links(raw.subs, |raw.frame|)[i];
            if raw.subs[i].RSelf? then link == 0
            else link > 0 && Loadable(s, pos + link, table, intern, content, raw.subs[i])
  {
    hide BlocksAt, Links, AllPortable, Keeps, Counted;
    LinkLeadsToChild(s, pos, Counted(), raw, i);
    ChildBlocks(raw, i);
  }

  lemma {:induction false} ChildBlocks(raw: RCode, i: nat)
    requires raw.RFunction? && i < |raw.subs|
    ensures forall rb | rb in Flatten(raw.subs[i]) :: rb in Flatten(raw)
  {
    NextKid(raw.subs, i);
    var all, n := raw.subs, i + 1;
    FlattenAllConcat(all[..n], all[n..]);
    assert all[..n] + all[n..] == all;
  }

  lemma ResolvedSame(raw: RCode, resolve: Resolver, pos: nat, copy: bool, memory: Memory)
    ensures copy || !LosesInfo(raw) ==> SeenView(ResolveTree(raw, resolve), pos, copy, memory) == ViewOf(ResolveTree(raw, resolve))
  {
    hide LosesInfo, SeenView, ViewOf;
    if copy || !LosesInfo(raw) {
      LosesMapped(raw, Resolving(resolve), Resolving(resolve));
      SeenSame(ResolveTree(raw, resolve), pos, copy, memory);
    }
  }

  /** `snapshot_load_compiled_code`: the machine sees the stored tree, resolved through the literal table, but for the
      extended info of redirected functions. */
  method LoadCompiledCode(s: seq<Byte>, pos: nat, table: seq<Byte>, copy: bool, memory: Memory, intern: Literal -> Word,
                          ghost content: Word -> Literal, ghost raw: RCode)
    returns (l: Loaded)
    requires Loadable(s, pos, table, intern, content, raw) && !raw.RSelf?
    ensures LoadedView(l, s, Through(content)) == SeenView(ResolveTree(raw, TableResolver(table)), pos, copy, memory)
    ensures copy || !LosesInfo(raw) ==> LoadedView(l, s, Through(content)) == ViewOf(ResolveTree(raw, TableResolver(table)))
    ensures OneReference(l)
    decreases raw, 1
  {
    hide StoredAt, BlocksAt, Loadable, BlockIs, Keeps, AllPortable, Links, Get16, LoadedView, LoadedViews, SeenView, SeenViews, LoadedFrom,
         MapTree, MapTrees, Flatten, FunctionBytes, CopyOf, WordAt, HasHeader, HeaderSize, ConstCount, SlotCount, TailCount,
         BodyPos, TailPos, SlotPos, InternWord, FlattenAll, LosesInfo, ViewOf, ViewsOf;
    ResolvedSame(raw, TableResolver(table), pos, copy, memory);
    FirstBlock(s, pos, table, intern, content, raw);
    BlockHere(s, pos, OwnBlock(raw));
    var size := 8 * Get16(s, pos) as int;
    var flags := Get16(s, pos + 4);
    if !IsFunction(flags) {
      RegExpHere(s, pos, size, raw.flags, raw.pattern);
      var length := Get16(s, pos + 2);
      l := LoadedRegExp(flags, s[pos + REGEXP_HEADER..pos + REGEXP_HEADER + length]);
      PatternSeen(raw.flags, raw.pattern, s, TableResolver(table), Through(content), pos, copy, memory);
      return;
    }
    var b := s[pos..pos + size];
    BlockParts(b, raw);
    var block, body := CopyBlock(s, pos, size, copy, memory);
    ghost var c := block[..];
    CopyWords(b, c);
    CountCopied(b, c);
    InternTable(block, HeaderSize(b), ConstCount(b), table, intern);
    ghost var c1 := block[..];
    SlotsCopied(c, c1, SlotPos(b), SlotCount(b));
    var subs := LoadSlots(s, pos, b, block, table, copy, memory, intern, content, raw);
    ValuesAgree(c, c1, |c| - 4 * TailCount(b), TailCount(b));
    InternTable(block, block.Length - 4 * TailCount(b), TailCount(b), table, intern);
    FinishedBy(b, c, c1, block[..], Lift(InternWord(intern, table)));
    FinishedView(s, pos, copy, memory, b, c, block[..], body, subs, raw, table, intern, content);
    CountStays(c, c1, block[..], HeaderSize(b));
    l := LoadedFunction(block[..], body, subs);
  }

  lemma CountStays(c: seq<Byte>, c1: seq<Byte>, d: seq<Byte>, n: nat)
    requires n >= 16 && Agree(c, c1, 0, n) && Agree(c1, d, 0, n) && Get16(c, 2) == 1
    ensures Get16(d, 2) == 1
  {
    assert d[2] == c[2] && d[3] == c[3];
  }

  /** Lines 689-706: an offset of 0 stands for the function itself. */
  method LoadSlots(s: seq<Byte>, pos: nat, b: seq<Byte>, block: array<Byte>, table: seq<Byte>, copy: bool, memory: Memory,
                   intern: Literal -> Word, ghost content: Word -> Literal, ghost raw: RCode)
    returns (subs: seq<Loaded>)
    requires Loadable(s, pos, table, intern, content, raw) && raw.RFunction? && |raw.frame| > 0
    requires FunctionBytes(b) && SlotPos(b) + 4 * SlotCount(b) <= block.Length && |raw.subs| == SlotCount(b)
    requires forall i | 0 <= i < SlotCount(b) :: WordAt(block[..], SlotPos(b), i) == Links(raw.subs, |raw.frame|)[i]
    ensures LoadedViews(subs, s, Through(content))
            == SeenViews(ResolveTree(raw, TableResolver(table)).subs, pos + |raw.frame|, copy, memory)
    ensures OneReferences(subs)
    decreases raw, 0
  {
    hide Loadable, Links, LoadedView, LoadedViews, SeenView, SeenViews, MapTree, MapTrees, FunctionBytes, SlotPos, SlotCount, Get32;
    ResolvedKids(raw, TableResolver(table));
    ghost var views := SeenViews(ResolveTree(raw, TableResolver(table)).subs, pos + |raw.frame|, copy, memory);
    NoViews(views, s, Through(content));
    subs := [];
    for i := 0 to SlotCount(b)
      invariant |subs| == i && LoadedViews(subs, s, Through(content)) == views[..i]
      invariant OneReferences(subs)
    {
      var link := Load32(block, SlotPos(b) + 4 * i);
      assert link == WordAt(block[..], SlotPos(b), i);
      ChildLoadable(s, pos, table, intern, content, raw, i);
      ChildSeen(raw, TableResolver(table), pos, copy, memory, i);
      var sub := LoadedSelf;
      SelfSeen(s, TableResolver(table), Through(content), pos + |raw.frame| + SubsSize(raw.subs[..i]), copy, memory);
      if link != 0 {
        sub := LoadCompiledCode(s, pos + link as int, table, copy, memory, intern, content, raw.subs[i]);
      }
      LoadedViewsAppend(subs, sub, s, Through(content));
      assert views[..i + 1] == views[..i] + [views[i]];
      OneReferencesAppend(subs, sub);
      subs := subs + [sub];
    }
  }

  lemma {:induction false} NoViews(views: seq<View>, s: seq<Byte>, heap: Resolver)
    ensures LoadedViews([], s, heap) == views[..0]
  {
  }

  lemma {:induction false} SelfSeen(s: seq<Byte>, resolve: Resolver, heap: Resolver, pos: nat, copy: bool, memory: Memory)
    ensures LoadedView(LoadedSelf, s, heap) == SeenView(ResolveTree(RSelf, resolve), pos, copy, memory)
  {
  }

  /** The i-th sub-function is seen where its link leads. */
  lemma {:induction false} ChildSeen(raw: RCode, resolve: Resolver, pos: nat, copy: bool, memory: Memory, i: nat)
    requires raw.RFunction? && i < |raw.subs|
    ensures SeenViews(ResolveTree(raw, resolve).subs, pos + |raw.frame|, copy, memory)[i]
         == SeenView(ResolveTree(raw.subs[i], resolve), pos + |raw.frame| + SubsSize(raw.subs[..i]), copy, memory)
    ensures !raw.subs[i].RSelf? ==> Links(raw.subs, |raw.frame|)[i] == |raw.frame| + SubsSize(raw.subs[..i])
  {
    hide SeenView, SeenViews, MapTrees, SubsSize, Links;
    SeenViewsAt(raw.subs, Resolving(resolve), pos + |raw.frame|, copy, memory, i);
    LinkIs(raw.subs, |raw.frame|, i);
  }

  lemma CountCopied(b: seq<Byte>, c: seq<Byte>)
    requires FunctionBytes(b) && CopyOf(b, c) && Get16(b, 2) == 1
    ensures Get16(c, 2) == 1
  {
    CopyWords(b, c);
    assert c[2] == b[2] && c[3] == b[3];
  }

  lemma ResolvedKids(raw: RCode, resolve: Resolver)
    requires raw.RFunction?
    ensures ResolveTree(raw, resolve).RFunction? && |ResolveTree(raw, resolve).subs| == |raw.subs|
    ensures forall i | 0 <= i < |raw.subs| :: ResolveTree(raw, resolve).subs[i] == ResolveTree(raw.subs[i], resolve)
  {
    forall i | 0 <= i < |raw.subs|
      ensures ResolveTree(raw, resolve).subs[i] == ResolveTree(raw.subs[i], resolve)
    {
      MapTreesAt(raw.subs, Resolving(resolve), Resolving(resolve), i);
    }
  }

  lemma SlotsCopied(c: seq<Byte>, c1: seq<Byte>, p: nat, n: nat)
    requires p + 4 * n <= |c| && Agree(c, c1, p, |c|)
    ensures forall i | 0 <= i < n :: WordAt(c1, p, i) == WordAt(c, p, i)
  {
    TableKept(c, c1, p, n);
  }

  lemma FinishedBy(b: seq<Byte>, c: seq<Byte>, c1: seq<Byte>, d: seq<Byte>, f: ValueMap)
    requires FunctionBytes(b) && CopyOf(b, c) && |c| >= BodyPos(b) + 4 * TailCount(b)
    requires SlotPos(b) == HeaderSize(b) + 4 * ConstCount(b) <= BodyPos(b)
    requires var p, n, q := HeaderSize(b), ConstCount(b), SlotPos(b);
             Agree(c, c1, 0, p) && Agree(c, c1, q, |c|) && Values(c1, p, n, Raw()) == MapValues(Values(c, p, n, Raw()), f)
    requires var p, n := |c| - 4 * TailCount(b), TailCount(b);
             Agree(c1, d, 0, p) && Agree(c1, d, |c|, |c|) && Values(d, p, n, Raw()) == MapValues(Values(c1, p, n, Raw()), f)
    ensures Finished(c, d, b, f)
  {
    hide WordAt, CopyOf, HasHeader, HeaderSize, ConstCount, SlotCount, TailCount, BodyPos, TailPos, SlotPos;
    var tail := |c| - 4 * TailCount(b);
    AgreeThen(c, c1, d, 0, HeaderSize(b), 0, tail);
    AgreeThen(c, c1, d, SlotPos(b), |c|, 0, tail);
    AgreePart(c1, d, 0, tail, HeaderSize(b), SlotPos(b));
    ValuesAgree(c1, d, HeaderSize(b), ConstCount(b));
    AgreePart(c, c1, SlotPos(b), |c|, tail, |c|);
    ValuesAgree(c, c1, tail, TailCount(b));
  }

  lemma RegExpHere(s: seq<Byte>, pos: nat, n: nat, flags: Half, pattern: seq<Byte>)
    requires pos + n <= |s| && BlockIs(s[pos..pos + n], Raw(), RegExpBlock(flags, pattern))
    ensures 6 + |pattern| <= n && Get16(s, pos + 2) == |pattern| && Get16(s, pos + 4) == flags
    ensures s[pos + REGEXP_HEADER..pos + REGEXP_HEADER + |pattern|] == pattern
  {
    var b := s[pos..pos + n];
    SliceOfSlice(s, pos, pos + n, 2, 4);
    SameGet(s, pos + 2, b, 2, 2);
    SliceOfSlice(s, pos, pos + n, 4, 6);
    SameGet(s, pos + 4, b, 4, 2);
    SliceOfSlice(s, pos, pos + n, REGEXP_HEADER, REGEXP_HEADER + |pattern|);
  }

  lemma {:induction false} PatternSeen(flags: Half, pattern: seq<Byte>, s: seq<Byte>, resolve: Resolver, heap: Resolver,
                                           pos: nat, copy: bool, memory: Memory)
    ensures LoadedView(LoadedRegExp(flags, pattern), s, heap) == SeenView(ResolveTree(RRegExp(flags, pattern), resolve), pos, copy, memory)
  {
  }

  // ---------------------------------------------------------------- the property length

  /** `length` of a function, of which the extended info may hold another value than the number of parameters. */
  function ReportedLength(parameters: Half, info: Info): Word {
    if info.Info? && info.flags % 2 == 1 then info.length else parameters
  }

  /** `ecma_op_function_try_to_lazy_instantiate_property`, where it makes the property `length`. */
  method FunctionLength(d: seq<Byte>) returns (length: Word)
    requires Shaped(d) && (HasInfo(d) ==> Complete(Area(d)))
    ensures length == ReportedLength(ArgumentEnd(d), InfoOf(d))
  {
    hide ReadVlq, HasFlag, Get16, Area;
    length := ArgumentEnd(d);
    if HasInfo(d) {
      var area := Area(d);
      if area[|area| - 1] % 2 == 1 {
        var next;
        length, next := DecodeVlq(area, |area| - 1);
      }
    }
  }

  // ---------------------------------------------------------------- jerry_exec_snapshot

  datatype ExecResult = Loads(code: Loaded) | InvalidFormat | InvalidVersion | IndexTooHigh

  /** `jerry_exec_snapshot` up to the call of the loaded code: the index-th primary function of a snapshot is
      loaded with the meaning that the snapshot gives it, unless extended info is left behind. */
  method ExecSnapshot(s: seq<Byte>, index: nat, copy: bool, memory: Memory, intern: Literal -> Word,
                      ghost content: Word -> Literal, ghost raws: seq<RCode>)
    returns (result: ExecResult)
    requires GoodHeader(s) && TableField(s) as int <= |s| ==>
      SnapshotIs(s, raws) && KeepsAll(intern, content, Table(s), FlattenAll(raws))
    ensures result.InvalidFormat? <==> |s| <= HEADER_SIZE
    ensures result.InvalidVersion? <==> |s| > HEADER_SIZE && !(GoodHeader(s) && TableField(s) as int <= |s|)
    ensures result.IndexTooHigh? <==>
              |s| > HEADER_SIZE && GoodHeader(s) && TableField(s) as int <= |s| && index >= CountField(s) as int
    ensures result.Loads? ==> index < |raws| && |s| >= HEADER_SIZE && TableField(s) as int <= |s|
    ensures result.Loads? ==> LoadedView(result.code, s, Through(content))
                              == SeenView(FunctionOf(s, raws, index), OffsetField(s, index), copy, memory)
    ensures result.Loads? && (copy || !LosesInfo(raws[index])) ==>
              LoadedView(result.code, s, Through(content)) == ViewOf(FunctionOf(s, raws, index))
    ensures result.Loads? ==> OneReference(result.code)
  {
    hide BlocksAt, KeepsAll, PortableBlocks, FlattenAll, Flatten, LoadedView, ViewOf, SeenView, LosesInfo, MapTree, Counted, Get32, TableResolver, Keeps,
         SubsSize;
    if |s| <= HEADER_SIZE {
      return InvalidFormat;
    }
    if MagicField(s) != MAGIC || VersionField(s) != VERSION || !CheckGlobalFlags(FlagsField(s)) {
      return InvalidVersion;
    }
    if TableField(s) as int > |s| {
      return InvalidVersion;
    }
    if index >= CountField(s) as int {
      return IndexTooHigh;
    }
    FunctionFound(s, raws, index);
    FunctionLoadable(s, raws, index, intern, content);
    var code := LoadCompiledCode(s, OffsetField(s, index), Table(s), copy, memory, intern, content, raws[index]);
    return Loads(code);
  }

  lemma {:induction false} FunctionLoadable(s: seq<Byte>, raws: seq<RCode>, k: nat, intern: Literal -> Word, content: Word -> Literal)
    requires SnapshotIs(s, raws) && k < |raws| && KeepsAll(intern, content, Table(s), FlattenAll(raws))
    ensures HEADER_SIZE + 4 * k <= |s| && Loadable(s, OffsetField(s, k), Table(s), intern, content, raws[k])
  {
    hide BlocksAt, Counted, AllPortable, Keeps, FlattenAll, Flatten, GoodHeader;
    FunctionFound(s, raws, k);
    BlocksOfFunction(raws, k);
  }

  lemma {:induction false} BlocksOfFunction(raws: seq<RCode>, k: nat)
    requires k < |raws|
    ensures forall rb | rb in Flatten(raws[k]) :: rb in FlattenAll(raws)
  {
    hide Flatten, FlattenAll;
    NextKid(raws, k);
    FlattenAllConcat(raws[..k + 1], raws[k + 1..]);
    assert raws[..k + 1] + raws[k + 1..] == raws;
  }
}
