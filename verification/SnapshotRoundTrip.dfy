/** Saving compiled code and loading the snapshot again, perhaps in another engine. */
module SnapshotRoundTrip {
  import opened Words
  import opened Bytes
  import opened SnapshotModel
  import opened SnapshotSave
  import opened SnapshotLiterals
  import opened SnapshotMaps
  import opened SnapshotRelocate
  import opened SnapshotFile
  import opened SnapshotGenerate
  import opened SnapshotLoad
  import opened SnapshotMerge

  /** A saved snapshot is more than a header, and its only function has index 0. */
  lemma {:induction false} OneFunction(s: seq<Byte>, raw: RCode)
    requires SnapshotIs(s, [raw])
    ensures GoodHeader(s) && |s| > HEADER_SIZE && TableField(s) as int <= |s| && CountField(s) == 1
  {
    hide BlocksAt, FlattenAll, SubsSize, Get32, Counted, BlocksSize, PortableBlocks;
    InputFacts(s, [raw]);
  }

  /** The literals of the function are those that the loading engine has to keep. */
  lemma {:induction false} KeepsSaved(s: seq<Byte>, raw: RCode, intern: Literal -> Word, heap: Word -> Literal)
    requires SnapshotIs(s, [raw]) && |s| >= HEADER_SIZE && TableField(s) as int <= |s|
    requires StorableAll(intern, heap, Flatten(FunctionOf(s, [raw], 0)))
    ensures KeepsAll(intern, heap, Table(s), FlattenAll([raw]))
  {
    hide BlocksAt, FlattenAll, Flatten, SubsSize, Get32, Counted, BlocksSize, PortableBlocks, StorableAll, KeepsAll, MapTree, TableResolver, MapBlocks;
    InputFacts(s, [raw]);
    OneTree(raw);
    var g := Resolving(TableResolver(Table(s)));
    FlattenMap(raw, g, g);
    BlocksStorable(intern, heap, Table(s), Flatten(raw));
  }

  /** The saved tree loses info exactly if the code does. */
  lemma {:induction false} LosesSaved(s: seq<Byte>, raw: RCode, c: Code, resolve: Resolver)
    requires |s| >= HEADER_SIZE && TableField(s) as int <= |s| && GoodCode(c)
    requires FunctionOf(s, [raw], 0) == Meaning(c, resolve)
    ensures LosesInfo(raw) <==> LosesInfo(Meaning(c, Raw()))
  {
    hide Get32, GoodCode, Meaning, LosesInfo, MapTree, TableResolver, Raw;
    MeaningResolves(c, resolve);
    LosesMapped(raw, Resolving(TableResolver(Table(s))), Resolving(TableResolver(Table(s))));
    LosesMapped(Meaning(c, Raw()), Resolving(resolve), Resolving(resolve));
  }

  /** Compiled code goes into a buffer and out of it again, into an engine whose literal storage keeps the literals of
      the code under words of its own. Whenever saving succeeds, loading does. What the machine sees is the code that was
      saved if the blocks are copied or no function with extended info is redirected, and exactly so if no text literal
      has 65536 bytes or more. */
  method SaveAndLoad(c: Code, content: Word -> Literal, buffer: array<Byte>, copy: bool, memory: Memory, intern: Literal -> Word,
                     ghost heap: Word -> Literal)
    returns (saved: SaveResult, loaded: ExecResult)
    requires GoodCode(c) && c.Function? && GoodContent(content) && EndsInside(c, buffer.Length)
    requires Parsed(Flatten(Meaning(c, Raw()))) && NoBigIntZero(Flatten(Meaning(c, Raw())))
    requires StorableAll(intern, heap, Flatten(Meaning(c, Through(ShortContent(content)))))
    modifies buffer
    ensures saved.Saved? ==> HEADER_SIZE <= saved.size <= buffer.Length && loaded.Loads? && OneReference(loaded.code)
    ensures saved.Saved? ==>
      LoadedView(loaded.code, buffer[..saved.size], Through(heap))
      == SeenView(Meaning(c, Through(ShortContent(content))), OffsetField(buffer[..saved.size], 0), copy, memory)
    ensures saved.Saved? && (copy || !LosesInfo(Meaning(c, Raw()))) ==>
      LoadedView(loaded.code, buffer[..saved.size], Through(heap)) == ViewOf(Meaning(c, Through(ShortContent(content))))
    ensures saved.Saved? && (copy || !LosesInfo(Meaning(c, Raw()))) && NoLongText(content, Flatten(Meaning(c, Raw()))) ==>
      LoadedView(loaded.code, buffer[..saved.size], Through(heap)) == ViewOf(Meaning(c, Through(content)))
  {
    hide Flatten, Meaning, SnapshotIs, StorableAll, LoadedView, ViewOf, SeenView, LosesInfo, OneReference, FunctionOf, Parsed, NoBigIntZero,
         EndsInside, GoodCode, GoodContent, Fits, KeepsAll, FlattenAll, Collected, AllPoolable, TableSize, BlocksSize, NoLongText, Get32;
    ghost var pool, raw;
    saved, pool, raw := GenerateSnapshot(c, content, buffer);
    loaded := InvalidFormat;
    if saved.Saved? {
      var s := buffer[..saved.size];
      OneFunction(s, raw);
      KeepsSaved(s, raw, intern, heap);
      SavedExactly(c, content);
      LosesSaved(s, raw, c, Through(ShortContent(content)));
      loaded := ExecSnapshot(s, 0, copy, memory, intern, heap, [raw]);
    }
  }
}
