/** Byte-code blocks as they lie in a snapshot (and in the engine's heap): the fields of
    cbc_uint8_arguments_t / cbc_uint16_arguments_t, the literal words behind them, and the
    serialisable values at the end of the block. */
module CodeBlocks {
  import opened Words
  import opened Bytes

  const FLAG_UINT16_ARGUMENTS := 0x2
  const FLAG_MAPPED_ARGUMENTS := 0x8
  const FLAG_EXTENDED_INFO := 0x20
  const FLAG_TAGGED_LITERALS := 0x40
  const FUNCTION_NORMAL := 0x1000
  const TYPE_CONSTRUCTOR := 2
  const REGEXP_HEADER := 6 // sizeof (ecma_compiled_code_t)

  /** Whether a status flag is set; `flag` is a power of two. */
  predicate HasFlag(flags: Half, flag: int)
    requires flag > 0
  {
    flags / flag % 2 == 1
  }

  predicate IsFunction(flags: Half) {
    flags >= FUNCTION_NORMAL
  }

  predicate IsConstructor(flags: Half) {
    flags / 0x1000 == TYPE_CONSTRUCTOR
  }

  // ---------------------------------------------------------------- fields of a function block

  /** Enough bytes for the fixed fields that the flags announce. */
  predicate HasHeader(b: seq<Byte>) {
    |b| >= 16 && (HasFlag(Get16(b, 4), FLAG_UINT16_ARGUMENTS) ==> |b| >= 24)
  }

  function Flags(b: seq<Byte>): Half
    requires |b| >= 6
  {
    Get16(b, 4)
  }

  predicate Wide(b: seq<Byte>)
    requires HasHeader(b)
  {
    HasFlag(Flags(b), FLAG_UINT16_ARGUMENTS)
  }

  function HeaderSize(b: seq<Byte>): nat
    requires HasHeader(b)
  {
    if Wide(b) then 24 else 16
  }

  function ArgumentEnd(b: seq<Byte>): nat
    requires HasHeader(b)
  {
    if Wide(b) then Get16(b, 12) else b[7]
  }

  function RegisterEnd(b: seq<Byte>): nat
    requires HasHeader(b)
  {
    if Wide(b) then Get16(b, 14) else b[12]
  }

  function ConstLiteralEnd(b: seq<Byte>): nat
    requires HasHeader(b)
  {
    if Wide(b) then Get16(b, 18) else b[14]
  }

  function LiteralEnd(b: seq<Byte>): nat
    requires HasHeader(b)
  {
    if Wide(b) then Get16(b, 20) else b[15]
  }

  /** `ecma_snapshot_resolve_serializable_values`: mapped argument names and the function name. */
  function TailCount(b: seq<Byte>): nat
    requires HasHeader(b)
  {
    (if HasFlag(Flags(b), FLAG_MAPPED_ARGUMENTS) then ArgumentEnd(b) else 0)
    + (if IsConstructor(Flags(b)) then 0 else 1)
  }

  /** A complete function block: its size field is its length and its parts do not overlap. */
  predicate FunctionBytes(b: seq<Byte>) {
    && HasHeader(b)
    && 8 * Get16(b, 0) as int == |b|
    && IsFunction(Flags(b))
    && RegisterEnd(b) <= ConstLiteralEnd(b) <= LiteralEnd(b)
    && HeaderSize(b) + 4 * (LiteralEnd(b) - RegisterEnd(b)) + 4 * TailCount(b) <= |b|
  }

  function ConstCount(b: seq<Byte>): nat
    requires FunctionBytes(b)
  {
    ConstLiteralEnd(b) - RegisterEnd(b)
  }

  function SlotCount(b: seq<Byte>): nat
    requires FunctionBytes(b)
  {
    LiteralEnd(b) - ConstLiteralEnd(b)
  }

  /** Byte position of the first sub-function slot; the constants start at HeaderSize. */
  function SlotPos(b: seq<Byte>): nat
    requires FunctionBytes(b)
  {
    HeaderSize(b) + 4 * ConstCount(b)
  }

  /** Byte position of the instructions. */
  function BodyPos(b: seq<Byte>): nat
    requires FunctionBytes(b)
  {
    SlotPos(b) + 4 * SlotCount(b)
  }

  function TailPos(b: seq<Byte>): nat
    requires FunctionBytes(b)
  {
    |b| - 4 * TailCount(b)
  }

  /** The bytes whose content save, relocation or merge replace: the reference count, the literal words
      and the serialisable values. */
  predicate Volatile(b: seq<Byte>, k: int)
    requires FunctionBytes(b)
  {
    2 <= k < 4 || HeaderSize(b) <= k < BodyPos(b) || TailPos(b) <= k
  }

  /** The lasting part of a block, with the volatile bytes blanked. */
  function Frame(b: seq<Byte>): (f: seq<Byte>)
    requires FunctionBytes(b)
    ensures |f| == |b|
  {
    seq(|b|, k requires 0 <= k < |b| => if Volatile(b, k) then 0 else b[k])
  }

  /** Changing volatile bytes only leaves every field and the frame as they are. */
  lemma FrameKept(b: seq<Byte>, c: seq<Byte>)
    requires FunctionBytes(b) && |c| == |b|
    requires forall k | 0 <= k < |b| && !Volatile(b, k) :: c[k] == b[k]
    ensures FunctionBytes(c) && Frame(c) == Frame(b)
    ensures HeaderSize(c) == HeaderSize(b) && ConstCount(c) == ConstCount(b) && SlotCount(c) == SlotCount(b)
    ensures TailCount(c) == TailCount(b) && Flags(c) == Flags(b) && ArgumentEnd(c) == ArgumentEnd(b)
  {
    assert forall k | 0 <= k < HeaderSize(b) && !(2 <= k < 4) :: c[k] == b[k];
    assert c[4] == b[4] && c[5] == b[5] && c[0] == b[0] && c[1] == b[1];
  }

  /** Blocks with the same frame have the same fields. */
  lemma FrameDetermines(b: seq<Byte>, c: seq<Byte>)
    requires FunctionBytes(b) && FunctionBytes(c) && Frame(b) == Frame(c)
    ensures |b| == |c| && HeaderSize(c) == HeaderSize(b) && ConstCount(c) == ConstCount(b)
    ensures SlotCount(c) == SlotCount(b) && TailCount(c) == TailCount(b)
    ensures Flags(c) == Flags(b) && ArgumentEnd(c) == ArgumentEnd(b)
    ensures forall k | 0 <= k < |b| && !Volatile(b, k) :: c[k] == b[k]
  {
    assert forall k | 0 <= k < 16 && !(2 <= k < 4) :: Frame(b)[k] == b[k] && Frame(c)[k] == c[k];
    assert forall k | 0 <= k < 16 && !(2 <= k < 4) :: b[k] == c[k];
    assert b[4] == c[4] && b[5] == c[5];
    assert HeaderSize(b) == HeaderSize(c);
    assert forall k | 0 <= k < HeaderSize(b) && !(2 <= k < 4) :: Frame(b)[k] == b[k] && Frame(c)[k] == c[k];
    assert forall k | 0 <= k < HeaderSize(b) && !(2 <= k < 4) :: b[k] == c[k];
    forall k | 0 <= k < |b| && !Volatile(b, k)
      ensures c[k] == b[k]
    {
      assert Frame(b)[k] == b[k] && Frame(c)[k] == c[k];
    }
  }

  // ---------------------------------------------------------------- words of a block

  /** The i-th word of a table that starts at byte p. */
  function WordAt(b: seq<Byte>, p: nat, i: nat): Word
    requires p + 4 * i + 4 <= |b|
  {
    Get32(b, p + 4 * i)
  }

  /** Storing into one word of a table leaves the other words and all bytes outside alone. */
  lemma WordStored(b: seq<Byte>, p: nat, n: nat, i: nat, w: Word)
    requires i < n && p + 4 * n <= |b|
    ensures WordAt(Put32(b, p + 4 * i, w), p, i) == w
    ensures forall j | 0 <= j < n && j != i :: WordAt(Put32(b, p + 4 * i, w), p, j) == WordAt(b, p, j)
    ensures forall k | 0 <= k < |b| && !(p + 4 * i <= k < p + 4 * i + 4) :: Put32(b, p + 4 * i, w)[k] == b[k]
  {
    GetPut32(b, p + 4 * i, w);
  }

  /** Equal bytes hold equal words. */
  lemma TableKept(b: seq<Byte>, c: seq<Byte>, p: nat, n: nat)
    requires |b| == |c| && p + 4 * n <= |b| && forall k | p <= k < p + 4 * n :: c[k] == b[k]
    ensures forall i | 0 <= i < n :: WordAt(c, p, i) == WordAt(b, p, i)
  {
  }
}
