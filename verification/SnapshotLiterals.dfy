/** The literal table of a snapshot (jerry-core/ecma/base/ecma-literal-storage.c): how literals are laid
    out, and how the words that replace them in byte code lead back to them. */
module SnapshotLiterals {
  import opened Words
  import opened Bytes
  import opened SnapshotModel

  const MAXIMUM_TABLE_SIZE := 0x7ff_ffff // UINT32_MAX >> JERRY_SNAPSHOT_LITERAL_SHIFT
  const BIGINT_ZERO: Word := 6
  const VALUE_EMPTY: Word := 8
  const TEXT_LIMIT := 0x8000_0000 // strings that the engine can hold

  // ---------------------------------------------------------------- tags of engine values

  predicate IsString(w: Word) {
    w as int % 4 == 1
  }

  predicate IsFloat(w: Word) {
    w as int % 8 == 2
  }

  predicate IsBigInt(w: Word) {
    w as int % 8 == 6
  }

  /** The tag of an offset into the literal table. */
  predicate IsOffset(w: Word) {
    w as int % 8 == 7
  }

  /** What `ecma_save_literals_append_value` accepts. */
  predicate Poolable(w: Word) {
    IsString(w) || (IsBigInt(w) && w != BIGINT_ZERO) || IsFloat(w)
  }

  function DigitBytes(signAndSize: Word): nat {
    signAndSize as int - signAndSize as int % 4
  }

  predicate GoodLiteral(l: Literal) {
    match l
    case Text(text) => |text| < TEXT_LIMIT
    case Number(bits) => |bits| == 8
    case BigInt(signAndSize, digits) => |digits| == DigitBytes(signAndSize) <= 0x1_0000
  }

  /** The engine's literal storage gives every word the kind of content its tag announces. */
  ghost predicate GoodContent(content: Word -> Literal) {
    forall w | Poolable(w) :: GoodLiteral(content(w))
      && (content(w).Number? <==> IsFloat(w)) && (content(w).BigInt? <==> IsBigInt(w))
  }

  /** Reading literal words through the storage. BigInt zero has no content: the word is the value. */
  function Through(content: Word -> Literal): Resolver {
    (w: Word) => if Poolable(w) then Stored(content(w)) else Direct(w)
  }

  // ---------------------------------------------------------------- layout

  function AlignUp2(n: nat): nat {
    (n + 1) / 2 * 2
  }

  function DataSize(l: Literal): nat {
    match l
    case Text(text) => 2 + |text|
    case Number(bits) => 8
    case BigInt(_, digits) => 4 + |digits|
  }

  function EntrySize(l: Literal): nat {
    AlignUp2(DataSize(l))
  }

  function TableSize(literals: seq<Literal>): nat {
    if literals == [] then 0 else TableSize(literals[..|literals| - 1]) + EntrySize(literals[|literals| - 1])
  }

  function KindFlag(l: Literal): nat {
    match l
    case Text(_) => 0
    case Number(_) => 8
    case BigInt(_, _) => 16
  }

  /** The word that replaces a literal whose entry starts at the given table offset. */
  function OffsetWord(offset: nat, l: Literal): Word
    requires offset <= MAXIMUM_TABLE_SIZE
  {
    offset * 32 + KindFlag(l) + 7
  }

  /** The length field has 16 bits: what a reader gets back of a longer text. */
  function Truncated(l: Literal): Literal {
    if l.Text? then Text(l.text[..|l.text| % 0x1_0000]) else l
  }

  function ShortContent(content: Word -> Literal): Word -> Literal {
    (w: Word) => Truncated(content(w))
  }

  // ---------------------------------------------------------------- reading

  predicate IsNumberWord(w: Word) {
    w as int / 8 % 2 == 1
  }

  predicate IsBigIntWord(w: Word) {
    w as int / 16 % 2 == 1
  }

  function TableOffset(w: Word): nat {
    w as int / 32
  }

  /** The bytes that reading the word touches are all there. */
  predicate InTable(table: seq<Byte>, w: Word) {
    var p := TableOffset(w);
    if IsNumberWord(w) then p + 8 <= |table|
    else if IsBigIntWord(w) then p + 4 <= |table| && p + 4 + DigitBytes(Get32(table, p)) <= |table|
    else p + 2 <= |table| && p + 2 + Get16(table, p) as int <= |table|
  }

  /** `ecma_snapshot_get_literal`, up to the lookup of the content in the engine's storage. */
  function GetLiteral(table: seq<Byte>, w: Word): Literal
    requires InTable(table, w)
  {
    var p := TableOffset(w);
    if IsNumberWord(w) then Number(table[p..p + 8])
    else if IsBigIntWord(w) then
      var signAndSize := Get32(table, p);
      BigInt(signAndSize, table[p + 4..p + 4 + DigitBytes(signAndSize)])
    else Text(table[p + 2..p + 2 + Get16(table, p) as int])
  }

  /** Reading literal words through a literal table. */
  function TableResolver(table: seq<Byte>): Resolver {
    (w: Word) => if IsOffset(w) && InTable(table, w) then Stored(GetLiteral(table, w)) else Direct(w)
  }

  // ---------------------------------------------------------------- entries

  /** The entry of a literal starts at p. */
  predicate EntryAt(s: seq<Byte>, p: nat, l: Literal) {
    && p + DataSize(l) <= |s|
    && match l
       case Text(text) => Get16(s, p) as int == |text| % 0x1_0000 && s[p + 2..p + 2 + |text|] == text
       case Number(bits) => |bits| == 8 && s[p..p + 8] == bits
       case BigInt(signAndSize, digits) => Get32(s, p) == signAndSize && s[p + 4..p + 4 + |digits|] == digits
  }

  lemma EntryKept(s: seq<Byte>, t: seq<Byte>, p: nat, l: Literal)
    requires EntryAt(s, p, l) && Agree(s, t, p, p + DataSize(l))
    ensures EntryAt(t, p, l)
  {
    AgreeSlice(s, t, p, p + DataSize(l));
    SameGet(t, p, s, p, if l.Text? then 2 else 4);
    match l {
      case Text(text) => AgreeSlice(s, t, p + 2, p + 2 + |text|);
      case Number(bits) =>
      case BigInt(signAndSize, digits) => AgreeSlice(s, t, p + 4, p + 4 + |digits|);
    }
  }

  /** The entry, seen from the start of the table. */
  lemma EntryInTable(s: seq<Byte>, start: nat, end: nat, p: nat, l: Literal)
    requires start <= end <= |s| && EntryAt(s, start + p, l) && start + p + DataSize(l) <= end
    ensures EntryAt(s[start..end], p, l)
  {
    var t := s[start..end];
    var n := if l.Text? then 2 else 4;
    SliceOfSlice(s, start, end, p, p + n);
    SameGet(t, p, s, start + p, n);
    match l {
      case Text(text) => SliceOfSlice(s, start, end, p + 2, p + 2 + |text|);
      case Number(bits) => SliceOfSlice(s, start, end, p, p + 8);
      case BigInt(signAndSize, digits) => SliceOfSlice(s, start, end, p + 4, p + 4 + |digits|);
    }
  }

  lemma OffsetWordBits(offset: nat, l: Literal)
    requires offset <= MAXIMUM_TABLE_SIZE
    ensures var w := OffsetWord(offset, l);
            IsOffset(w) && TableOffset(w) == offset && IsNumberWord(w) == l.Number? && (IsBigIntWord(w) == l.BigInt?)
  {
    WordParts(offset, if l.Number? then 1 else 0, if l.BigInt? then 1 else 0);
  }

  lemma WordParts(offset: nat, number: nat, big: nat)
    requires number < 2 && big < 2
    ensures var w := offset * 32 + number * 8 + big * 16 + 7;
            w / 32 == offset && w / 16 % 2 == big && w / 8 % 2 == number && w % 8 == 7
  {
    var w := offset * 32 + number * 8 + big * 16 + 7;
    ModUnique(w, 32, offset, number * 8 + big * 16 + 7);
    ModUnique(w, 16, 2 * offset + big, number * 8 + 7);
    ModUnique(w, 8, 4 * offset + 2 * big + number, 7);
    ModUnique(2 * offset + big, 2, offset, big);
    ModUnique(4 * offset + 2 * big + number, 2, 2 * offset + big, number);
  }

  /** An entry is read back exactly, except that a text comes back cut to its size modulo 65536. */
  lemma EntryReads(table: seq<Byte>, p: nat, l: Literal)
    requires p <= MAXIMUM_TABLE_SIZE && GoodLiteral(l) && EntryAt(table, p, l)
    ensures IsOffset(OffsetWord(p, l)) && InTable(table, OffsetWord(p, l))
    ensures GetLiteral(table, OffsetWord(p, l)) == Truncated(l)
  {
    OffsetWordBits(p, l);
    if l.Text? {
      var n := |l.text| % 0x1_0000;
      SliceOfSlice(table, p + 2, p + 2 + |l.text|, 0, n);
    }
  }

  /** A literal survives the table unchanged if and only if it is not a text of 65536 bytes or more. */
  lemma SurvivesExactly(l: Literal)
    ensures Truncated(l) == l <==> !(l.Text? && |l.text| >= 0x1_0000)
  {
    if l.Text? && |l.text| >= 0x1_0000 {
      assert |Truncated(l).text| < |l.text|;
    }
  }

  // ---------------------------------------------------------------- writing

  function Contents(pool: seq<Word>, content: Word -> Literal): (r: seq<Literal>)
    ensures |r| == |pool|
    ensures forall i | 0 <= i < |r| :: r[i] == content(pool[i])
  {
    seq(|pool|, i requires 0 <= i < |pool| => content(pool[i]))
  }

  lemma TableSizeNext(literals: seq<Literal>, i: nat)
    requires i < |literals|
    ensures TableSize(literals[..i + 1]) == TableSize(literals[..i]) + EntrySize(literals[i])
  {
    assert literals[..i + 1][..i] == literals[..i];
  }

  lemma {:induction false} TableSizeGrows(literals: seq<Literal>, i: nat)
    requires i <= |literals|
    ensures TableSize(literals[..i]) <= TableSize(literals)
    decreases |literals| - i
  {
    if i < |literals| {
      TableSizeNext(literals, i);
      TableSizeGrows(literals, i + 1);
    } else {
      assert literals[..i] == literals;
    }
  }

  /** The loop body of lines 595-643 that stores one literal; padding is skipped, not written. */
  method WriteLiteral(l: Literal, buffer: array<Byte>, p: nat)
    requires GoodLiteral(l) && p + DataSize(l) <= buffer.Length
    modifies buffer
    ensures EntryAt(buffer[..], p, l)
    ensures Agree(old(buffer[..]), buffer[..], 0, p)
    ensures Agree(old(buffer[..]), buffer[..], p + DataSize(l), buffer.Length)
  {
    hide Put16, Put32, Splice, Get16, Get32;
    ghost var s := buffer[..];
    match l {
      case Number(bits) =>
        CopyInto(buffer, p, bits);
        SpliceAgrees(s, p, bits);
      case BigInt(signAndSize, digits) =>
        Store32(buffer, p, signAndSize);
        ghost var t := buffer[..];
        CopyInto(buffer, p + 4, digits);
        SpliceAgrees(t, p + 4, digits);
        HeadStays32(s, p, signAndSize, digits);
      case Text(text) =>
        Store16(buffer, p, |text| % 0x1_0000);
        ghost var t := buffer[..];
        CopyInto(buffer, p + 2, text);
        SpliceAgrees(t, p + 2, text);
        HeadStays16(s, p, |text| % 0x1_0000, text);
    }
  }

  lemma HeadStays16(s: seq<Byte>, p: nat, h: Half, data: seq<Byte>)
    requires p + 2 + |data| <= |s|
    ensures Get16(Splice(Put16(s, p, h), p + 2, data), p) == h
    ensures Agree(s, Splice(Put16(s, p, h), p + 2, data), 0, p)
    ensures Agree(s, Splice(Put16(s, p, h), p + 2, data), p + 2 + |data|, |s|)
  {
    var t := Put16(s, p, h);
    GetPut16(s, p, h);
    SpliceAgrees(t, p + 2, data);
    SameGet(Splice(t, p + 2, data), p, t, p, 2);
  }

  lemma HeadStays32(s: seq<Byte>, p: nat, w: Word, data: seq<Byte>)
    requires p + 4 + |data| <= |s|
    ensures Get32(Splice(Put32(s, p, w), p + 4, data), p) == w
    ensures Agree(s, Splice(Put32(s, p, w), p + 4, data), 0, p)
    ensures Agree(s, Splice(Put32(s, p, w), p + 4, data), p + 4 + |data|, |s|)
  {
    var t := Put32(s, p, w);
    GetPut32(s, p, w);
    SpliceAgrees(t, p + 4, data);
    SameGet(Splice(t, p + 4, data), p, t, p, 4);
  }

  /** `lit_mem_to_snapshot_id_map_entry_t` */
  datatype MapEntry = MapEntry(id: Word, offset: Word)

  /** The space that line 536 leaves for the table, in the `size_t` arithmetic of a machine with `width` addresses. */
  function LiteralSpace(limit: nat, offset: nat, width: nat): int
    requires width > 0
  {
    Smaller((limit - offset) % width, MAXIMUM_TABLE_SIZE)
  }

  /** The space is what is left of the buffer if and only if the offset is inside; otherwise there is no bound left
      but the greatest table size. */
  lemma LiteralSpaceExactly(limit: nat, offset: nat, width: nat)
    requires limit < width && offset < limit + 8 && width >= 0x1_0000_0000
    ensures LiteralSpace(limit, offset, width) == Smaller(limit - offset, MAXIMUM_TABLE_SIZE) <==> offset <= limit
    ensures offset > limit ==> LiteralSpace(limit, offset, width) == MAXIMUM_TABLE_SIZE
  {
    if offset <= limit {
      ModUnique(limit - offset, width, 0, limit - offset);
    } else {
      ModUnique(limit - offset, width, -1, limit - offset + width);
    }
  }

  /** The map entries lead, through the table s[start..], to the (truncated) content of their words. */
  predicate Mapped(s: seq<Byte>, start: nat, pool: seq<Word>, content: Word -> Literal, litMap: seq<MapEntry>, n: nat) {
    var all := Contents(pool, content);
    && n <= |litMap| && n <= |pool|
    && forall i | 0 <= i < n :: EntryMapped(s, start, all, i, pool[i], litMap[i])
  }

  predicate EntryMapped(s: seq<Byte>, start: nat, all: seq<Literal>, i: nat, id: Word, entry: MapEntry) {
    && i < |all| && TableSize(all[..i]) <= MAXIMUM_TABLE_SIZE
    && EntryAt(s, start + TableSize(all[..i]), all[i])
    && entry == MapEntry(id, OffsetWord(TableSize(all[..i]), all[i]))
  }

  lemma MappedKept(s: seq<Byte>, t: seq<Byte>, start: nat, pool: seq<Word>, content: Word -> Literal,
                   litMap: seq<MapEntry>, more: seq<MapEntry>, n: nat)
    requires Mapped(s, start, pool, content, litMap, n) && n == |litMap| && litMap <= more
    requires Agree(s, t, start, start + TableSize(Contents(pool, content)[..n]))
    ensures Mapped(t, start, pool, content, more, n)
  {
    hide EntryAt, TableSize, OffsetWord;
    var all := Contents(pool, content);
    forall i | 0 <= i < n
      ensures EntryMapped(t, start, all, i, pool[i], more[i])
    {
      assert EntryMapped(s, start, all, i, pool[i], litMap[i]);
      TableSizeNext(all, i);
      TableSizeGrows(all[..n], i + 1);
      assert all[..n][..i + 1] == all[..i + 1];
      EntryKept(s, t, start + TableSize(all[..i]), all[i]);
    }
  }

  /** `ecma_save_literals_for_snapshot`. */
  method SaveLiterals(pool: seq<Word>, content: Word -> Literal, buffer: array<Byte>, offset: nat)
    returns (ok: bool, newOffset: nat, litMap: seq<MapEntry>)
    requires offset <= buffer.Length && GoodContent(content) && forall w | w in pool :: Poolable(w)
    modifies buffer
    ensures var size := TableSize(Contents(pool, content));
            && (ok <==> size <= Smaller(buffer.Length - offset, MAXIMUM_TABLE_SIZE))
            && (ok ==> newOffset == offset + size)
    ensures !ok ==> buffer[..] == old(buffer[..]) && newOffset == offset && litMap == []
    ensures ok ==> |litMap| == |pool| && Mapped(buffer[..], offset, pool, content, litMap, |pool|)
    ensures ok ==> Agree(old(buffer[..]), buffer[..], 0, offset) && Agree(old(buffer[..]), buffer[..], newOffset, buffer.Length)
  {
    hide EntryAt, OffsetWord, Mapped, TableSize;
    ghost var all := Contents(pool, content);
    litMap := [];
    var tableSize := 0;
    var maximum := Smaller(buffer.Length - offset, MAXIMUM_TABLE_SIZE);
    EmptyTable(buffer[..], offset, pool, content);
    for i := 0 to |pool|
      invariant tableSize == TableSize(all[..i]) <= maximum && buffer[..] == old(buffer[..])
    {
      TableSizeNext(all, i);
      TableSizeGrows(all, i + 1);
      assert Poolable(pool[i]);
      tableSize := Wrap(tableSize + EntrySize(content(pool[i])));
      if tableSize > maximum {
        return false, offset, [];
      }
    }
    assert all[..|pool|] == all;
    newOffset := offset + tableSize;
    var literalOffset := 0;
    for i := 0 to |pool|
      invariant literalOffset == TableSize(all[..i]) <= MAXIMUM_TABLE_SIZE && |litMap| == i
      invariant Mapped(buffer[..], offset, pool, content, litMap, i)
      invariant Agree(old(buffer[..]), buffer[..], 0, offset) && Agree(old(buffer[..]), buffer[..], newOffset, buffer.Length)
    {
      TableSizeNext(all, i);
      TableSizeGrows(all, i + 1);
      var l := content(pool[i]);
      assert Poolable(pool[i]);
      ghost var s := buffer[..];
      WriteLiteral(l, buffer, offset + literalOffset);
      AgreeThen(old(buffer[..]), s, buffer[..], 0, offset, 0, offset + literalOffset);
      AgreeThen(old(buffer[..]), s, buffer[..], newOffset, |s|, offset + literalOffset + DataSize(l), |s|);
      ghost var before := litMap;
      litMap := litMap + [MapEntry(pool[i], OffsetWord(literalOffset, l))];
      MappedKept(s, buffer[..], offset, pool, content, before, litMap, i);
      MappedNext(buffer[..], offset, pool, content, litMap, i);
      literalOffset := literalOffset + EntrySize(l);
    }
    return true, newOffset, litMap;
  }

  lemma EmptyTable(s: seq<Byte>, start: nat, pool: seq<Word>, content: Word -> Literal)
    ensures TableSize(Contents(pool, content)[..0]) == 0 && Mapped(s, start, pool, content, [], 0)
  {
  }

  lemma MappedNext(s: seq<Byte>, start: nat, pool: seq<Word>, content: Word -> Literal, litMap: seq<MapEntry>, n: nat)
    requires n < |litMap| && n < |pool| && Mapped(s, start, pool, content, litMap, n)
    requires EntryMapped(s, start, Contents(pool, content), n, pool[n], litMap[n])
    ensures Mapped(s, start, pool, content, litMap, n + 1)
  {
  }
}
