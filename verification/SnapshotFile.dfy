/** The header of a snapshot (jerry-core/api/jerry-snapshot.h) and what makes a whole snapshot well formed. */
module SnapshotFile {
  import opened Words
  import opened Bytes
  import opened SnapshotModel
  import opened SnapshotLiterals
  import opened SnapshotMaps
  import opened SnapshotRelocate

  const HEADER_SIZE := 24 // sizeof (jerry_snapshot_header_t)
  const MAGIC: Word := 0x5952524a
  const VERSION: Word := 70
  const HAS_REGEX_LITERAL := 1
  const HAS_CLASS_LITERAL := 2

  /** `snapshot_get_global_flags` */
  function GlobalFlags(regexFound: bool, classFound: bool): Word {
    (if regexFound then HAS_REGEX_LITERAL else 0) + (if classFound then HAS_CLASS_LITERAL else 0)
  }

  /** `snapshot_check_global_flags`: nothing is left once the two feature bits are cleared. */
  predicate CheckGlobalFlags(flags: Word) {
    flags < 4
  }

  function MagicField(s: seq<Byte>): Word requires |s| >= HEADER_SIZE { Get32(s, 0) }
  function VersionField(s: seq<Byte>): Word requires |s| >= HEADER_SIZE { Get32(s, 4) }
  function FlagsField(s: seq<Byte>): Word requires |s| >= HEADER_SIZE { Get32(s, 8) }
  function TableField(s: seq<Byte>): Word requires |s| >= HEADER_SIZE { Get32(s, 12) }
  function CountField(s: seq<Byte>): Word requires |s| >= HEADER_SIZE { Get32(s, 16) }

  function OffsetField(s: seq<Byte>, i: nat): Word
    requires HEADER_SIZE + 4 * i <= |s|
  {
    Get32(s, 20 + 4 * i)
  }

  predicate GoodHeader(s: seq<Byte>) {
    |s| >= HEADER_SIZE && MagicField(s) == MAGIC && VersionField(s) == VERSION && CheckGlobalFlags(FlagsField(s))
  }

  /** A literal word that does not depend on the engine that wrote it. */
  predicate Portable(table: seq<Byte>, v: RValue) {
    v.Direct? && if IsOffset(v.word) then InTable(table, v.word) else !Poolable(v.word)
  }

  predicate AllPortable(table: seq<Byte>, values: seq<RValue>) {
    forall v | v in values :: Portable(table, v)
  }

  ghost predicate PortableBlocks(table: seq<Byte>, blocks: seq<RBlock>) {
    forall rb | rb in blocks :: rb.FunctionBlock? ==> AllPortable(table, rb.consts) && AllPortable(table, rb.tail)
  }

  /** A snapshot whose primary functions are the given trees (literal words unresolved): the trees lie one
      behind the other, they fill the code area up to the literal table, every function has reference
      count 1, literal words lead into the table, and the header leads to each function. */
  ghost predicate SnapshotIs(s: seq<Byte>, raws: seq<RCode>) {
    && GoodHeader(s) && raws != [] && CountField(s) == |raws|
    && HEADER_SIZE + 4 * (|raws| - 1) <= OffsetField(s, 0) as int
    && OffsetField(s, 0) as int + SubsSize(raws) == TableField(s) as int <= |s|
    && (forall j | 0 <= j < |raws| :: raws[j].RFunction?)
    && BlocksAt(s, OffsetField(s, 0), Counted(), FlattenAll(raws))
    && PortableBlocks(s[TableField(s)..], FlattenAll(raws))
    && (forall j | 0 <= j < |raws| :: OffsetField(s, j) as int == OffsetField(s, 0) as int + SubsSize(raws[..j]))
  }

  function Table(s: seq<Byte>): seq<Byte>
    requires |s| >= HEADER_SIZE && TableField(s) as int <= |s|
  {
    s[TableField(s)..]
  }

  /** The meaning of the k-th primary function of a snapshot. */
  function FunctionOf(s: seq<Byte>, raws: seq<RCode>, k: nat): RCode
    requires |s| >= HEADER_SIZE && TableField(s) as int <= |s| && k < |raws|
  {
    ResolveTree(raws[k], TableResolver(Table(s)))
  }

  /** The k-th primary function is stored where the header says. */
  lemma FunctionFound(s: seq<Byte>, raws: seq<RCode>, k: nat)
    requires SnapshotIs(s, raws) && k < |raws|
    ensures HEADER_SIZE + 4 * k <= |s| && StoredAt(s, OffsetField(s, k), Counted(), raws[k])
    ensures StoredAt(s, OffsetField(s, k), Test(TableResolver(Table(s))), FunctionOf(s, raws, k))
  {
    hide BlocksAt, Counted;
    ChildStored(s, OffsetField(s, 0), Counted(), raws, k);
    var p := OffsetField(s, k);
    CountedIsRaw();
    BlocksWeaken(s, p, Counted(), Test(Raw()), Flatten(raws[k]));
    ResolvedStored(s, p, raws[k], TableResolver(Table(s)));
  }

  lemma CountedIsRaw()
    ensures forall b, rb {:trigger Test(Raw())(b, rb)} :: Counted()(b, rb) ==> Test(Raw())(b, rb)
  {
  }
}
