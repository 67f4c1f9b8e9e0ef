# JerryScript: snapshots, exact arithmetic, debugger protocol and table generators

A Dafny model of five parts of JerryScript that do not depend on each other, and proofs about them. `dafny verify dfyconfig.toml`
checks the whole project.

**Exact arithmetic** (`Words`, `Doubles`, `Sqrt`, `Fmod`, `Neighbours`, `Rounding`, `QuadrantDigits`). The functions of
jerry-math that work on the two 32-bit words of a double with manual carries and borrows. A finite double is the integer |x|
* 2^1074, so that every claim is one about integers. `Sqrt` is correctly rounded, `Fmod` is exact, `nextafter` goes to the
adjacent double, `floor` and `ceil` find the integer bounds, and the digits that `__kernel_rem_pio2` distills are worth the
chunks they come from, before and after the complement.

**Snapshots** (`Bytes`, `CodeBlocks`, `ExtendedInfo`, `SnapshotModel` and the other `Snapshot` modules, `LiteralSort`, `LiteralList`).
Compiled functions and regular expressions are trees of blocks of bytes. They are saved recursively into a buffer, relocated
by a flat walk, loaded by copying or by redirecting, and merged, also with earlier merges. The meaning of a tree is the tree
with every literal word resolved, by the engine's storage or by a literal table, and each operation is proved to keep that
meaning, or exactly when it does. The literals can be sorted and printed as a list, which another tool parses again.

**Debugger** (`DebuggerProtocol`, `DebuggerResumption`, `Fragments`, `ScopeVariables`, `ClientIndex`, `ClientRuns`,
`Framing`). The server with its mode flags and the client with its prompt are a state machine with a queue of messages in
each direction; the engine and the user are moves that may happen at any time. Safety is proved for every run, and when a
resumption is carried out. Below that, payloads are cut and reassembled, scope variables are written over message boundaries
and read again, frames are found in a stream that arrives in arbitrary pieces, and the client's indexes of lines and
breakpoints agree with the functions that are alive and with what the server has been told.

**Unicode tables** (`UnicodeTables`, `UnicodeExtract`). The lower-case mapping is taken apart into five kinds of tables that
decode to it again.

**Magic strings** (`MagicGuards`, `MagicMeaning`, `MagicTexts`, `MagicStrings`). Guards of references are simplified and
written as conditions, and definitions are written between directives whose effect is that of a preprocessor run, for all
macros.

## What turned out not to hold

Each of these is stated exactly by a member of the table below, for all inputs; where that does not show an input, another member does.

- A text literal of 65536 bytes or more is cut by its 16-bit length field (`SnapshotLiterals.SurvivesExactly`,
  `SnapshotGenerate.SavedExactly`; input: `SnapshotExamples.LongTextLost`).
- The constant `0n` is never put into the literal pool but is looked up in the map, whose search has no bound
  (`SnapshotGenerate.LookupsStopExactly`; input: `SnapshotExamples.BigIntZeroLost`).
- The flag of tagged template literals has the value of the `s` flag of a regular expression and is tested first, so that code
  with such a regular expression cannot be saved (`SnapshotSave.RoomyFitsExactly`; input: `SnapshotExamples.DotAllRefused`).
- A pattern at the end of the code is padded after the check against the buffer size. In a buffer whose size is not a multiple of 8
  the write offset can end behind the buffer; the space left for literals then underflows (`SnapshotSave.CodeEndsInsideExactly`,
  `SnapshotLiterals.LiteralSpaceExactly`; input: `SnapshotExamples.PaddingBehindBuffer`).
- A load that leaves instructions in the snapshot leaves the extended info of the function there as well, in which the parser puts the
  `length` of a function with default values, but the engine looks for it in the loaded block and finds uninitialised memory
  (`SnapshotLoad.RedirectExactly`; input: `SnapshotExamples.LengthLost`).
- Empty literals do not come back from a literal list, and the parser looks behind the end of the list once
  (`LiteralList.ListParsesBack`). The caller of the reader puts a zero byte there, and since the empty string is a magic string it is
  filtered out before a list is printed.
- A stop that is handled behind a resumption in the same receive call takes it back, and the two sides then wait for each other
  (`DebuggerResumption.CarriedOutExactly`; input: `DebuggerResumption.LostRun`, and its end: `DebuggerResumption.LostForEver`).
- A step up from the negative zero and down again gives the positive zero (`Neighbours.UpAndDown`).
- Of two breakpoints on one line of a function only the last can be set (`ClientIndex.SettableExactly`; input:
  `ClientIndex.SharedLine`).
- A simplified guard can be weaker than the guards of the references (`MagicMeaning.SimplifiedExactly` for any number of references,
  `MagicMeaning.TwoExactly` for two; inputs: `MagicMeaning.WeakerExample`, `MagicMeaning.NegationFirst`,
  `MagicMeaning.NegationsInBoth`). What is taken for the negation of an `#else` or `#ifndef` guard means the same as the guard
  (`MagicMeaning.NegationSays`; input: `MagicMeaning.IfndefExample`).
- The simplification fails with a missing element when a guard is negated twice (`MagicGuards.FailsExactly`,
  `MagicGuards.PlainFailsExactly`, and on the references alone `MagicGuards.SteadyFailsExactly`; input: `MagicGuards.TwoNegationsFail`).
- Conditions that contain an "or" are joined without parentheses (`MagicTexts.TextExactly`; input: `MagicTexts.TextExample`).

## Model

| member | source | states |
|---|---|---|
| Doubles.MagnitudeOrder | src/jerry/jerry-math/sqrt.c:231-240 | magnitudes of finite doubles, as integers in units of 2^-1074, are ordered exactly as their bit patterns |
| Doubles.MagnitudeDetermines | src/jerry/jerry-math/sqrt.c:231-240 | sign and magnitude determine the two words of a finite double |
| Sqrt.Sqrt | src/jerry/jerry-math/sqrt.c:104-241 | for every argument: NaN, infinities, zeros and negative numbers as documented, and for every positive finite double, normal or subnormal, the correctly rounded root in all three rounding directions, whatever the undefined shift of line 146 gives |
| Sqrt.NormalizeSubnormal | src/jerry/jerry-math/sqrt.c:133-148 | a subnormal argument becomes a 53-bit significand without changing its value |
| Sqrt.Normalize | src/jerry/jerry-math/sqrt.c:131-150 | the significand and exponent stand for the argument |
| Sqrt.ShiftedHigh | src/jerry/jerry-math/sqrt.c:141-147 | the bits shifted out of the low word fill the gap in the high word, for a shift count from 0 to 20 |
| Sqrt.HighDigit | src/jerry/jerry-math/sqrt.c:164-176 | one round on the high word, with the carry between the words |
| Sqrt.LowDigit | src/jerry/jerry-math/sqrt.c:179-201 | one round on the low word: comparison over two words, the carry into s0, the borrow and the wrap-around of s1 are exact |
| Sqrt.RootStep | src/jerry/jerry-math/sqrt.c:164-176 | a bit enters the root exactly when the trial subtraction succeeds, and the invariant of the digit loops is kept |
| Sqrt.HighDigits | src/jerry/jerry-math/sqrt.c:159-176 | the high 22 bits of the root satisfy the digit invariant |
| Sqrt.LowDigits | src/jerry/jerry-math/sqrt.c:178-201 | so do the low 32 bits |
| Sqrt.RootFound | src/jerry/jerry-math/sqrt.c:178-201 | after both loops q:q1 is the integer root of the scaled radicand to 54 bits, and the remainder words are zero if and only if it is exact |
| Sqrt.NoTie | src/jerry/jerry-math/sqrt.c:205-230 | an exact tie between two doubles never occurs |
| Sqrt.RoundDigits | src/jerry/jerry-math/sqrt.c:206-230 | the last digit rounds the root as the rounding direction asks, with the carry into the high word |
| Sqrt.Neighbours | src/jerry/jerry-math/sqrt.c:231-240 | no double lies strictly between a significand at a scale and the next one |
| Sqrt.RoundedBeats | src/jerry/jerry-math/sqrt.c:206-240 | the rounded digits are closer to the root than any other double |
| Sqrt.RootIsCorrect | src/jerry/jerry-math/sqrt.c:158-240 | digits rounded as asked, at the halved exponent, are the correctly rounded root |
| Sqrt.Pack | src/jerry/jerry-math/sqrt.c:231-239 | the digits, which may carry to 2^53, and the exponent are packed without loss |
| Fmod.Fmod | src/jerry/jerry-math/fmod.c:41-235 | for every pair of arguments: NaN cases, and otherwise the result is finite, has the sign of x and exactly the remainder of the magnitudes |
| Fmod.NaNTest | src/jerry/jerry-math/fmod.c:56-57 | the test on the words singles out the NaNs |
| Fmod.Ilogb | src/jerry/jerry-math/fmod.c:73-117 | the exponent of the leading bit, for normal and subnormal operands |
| Fmod.SetUp | src/jerry/jerry-math/fmod.c:119-155 | the operand becomes a 53-bit significand at that exponent |
| Fmod.Subtract | src/jerry/jerry-math/fmod.c:158-165 | the two-word subtraction with borrow, and its sign |
| Fmod.Reduce | src/jerry/jerry-math/fmod.c:157-192 | shift and subtract gives the remainder of the shifted significand |
| Fmod.RoundKeeps | src/jerry/jerry-math/fmod.c:159-181 | each round keeps the congruence modulo y; a zero difference means that the remainder is zero for good |
| Fmod.RemainderScaled | src/jerry/jerry-math/fmod.c:157-192 | the remainder of the operands is the remainder of the aligned significands at the exponent of y |
| Fmod.Pack | src/jerry/jerry-math/fmod.c:199-233 | normalising and packing keep the magnitude |
| Fmod.Finish | src/jerry/jerry-math/fmod.c:194-234 | a zero remainder has the sign of x; any other keeps its magnitude through normalising and packing |
| Fmod.PackSubnormal | src/jerry/jerry-math/fmod.c:213-233 | packing a subnormal result drops only zero bits |
| Fmod.ShiftedOut | src/jerry/jerry-math/fmod.c:213-233 | a right shift of a multiple of 2^n over two words is exact in all three cases of the code |
| Neighbours.Nextafter | src/jerry/jerry-math/nextafter.c:55-133 | the result is the double one place further in the numeric order towards y, with the sign rules for zero, for all arguments including infinities |
| Neighbours.StepWords | src/jerry/jerry-math/nextafter.c:76-118 | one unit more or less in the words, with carry and borrow |
| Neighbours.PlaceOrder | src/jerry/jerry-math/nextafter.c:55-133 | the places of finite doubles are in the order of their values |
| Neighbours.NoneBetween | src/jerry/jerry-math/nextafter.c:55-133 | no double lies strictly between a double and its neighbour |
| Neighbours.UpAndDown | src/jerry/jerry-math/nextafter.c:55-133 | a step up and a step down return the same double if and only if it is not the negative zero |
| Rounding.Floor | src/jerry/jerry-math/floor.c:48-129 | the greatest integer that is not greater, with the sign of x when it is zero, in all carry cases; infinities and NaN |
| Rounding.Ceil | src/jerry/jerry-math/ceil.c:48-130 | the least integer that is not less, likewise |
| Rounding.RoundHigh | src/jerry/jerry-math/floor.c:76-96 | exponents 0 to 19: the bits behind the point go, or one unit is added with its carry into the exponent |
| Rounding.RoundLow | src/jerry/jerry-math/floor.c:99-122 | exponents 20 to 51: the same with a carry between the words |
| Rounding.TailGone | src/jerry/jerry-math/floor.c:76-122 | clearing the bits behind the point, or adding one unit, gives the integer part or the next integer even if the carry changes the exponent |
| Rounding.FloorIsMinusCeil | src/jerry/jerry-math/ceil.c:48-130 | whatever is a ceiling of -x is minus the floor of x, word for word |
| QuadrantDigits.Distill | src/jerry/jerry-math/trig.c:218-224 | the digits below 2^24 and the rest are worth what the chunks are worth together |
| QuadrantDigits.Complement | src/jerry/jerry-math/trig.c:251-267 | digits that are not all zero become the complement to the next power, all still in range; zero stays zero |
| QuadrantDigits.TakeTop | src/jerry/jerry-math/trig.c:232-238 | the leading bits of the top digit move to the number of quarters, and the half bit is read off |
| QuadrantDigits.ComplementToUnit | src/jerry/jerry-math/trig.c:251-283 | with the masks for q0 of 1 and 2 the complement is the one to a quarter turn |
| QuadrantDigits.Quarters | src/jerry/jerry-math/trig.c:216-292 | from the chunks: n is the number of quarter turns modulo 8 rounded to the nearest, and z with the digits is the exact distance from it |
| CodeBlocks.FrameKept | src/jerry/jerry-core/api/jerry-snapshot.c:456-519 | changing only reference count, literal words and serialisable values leaves every field and the lasting bytes of a block as they are |
| CodeBlocks.FrameDetermines | src/jerry/jerry-core/api/jerry-snapshot.c:605-671 | blocks with the same lasting bytes have the same fields |
| SnapshotModel.FlattenSize | src/jerry/jerry-core/api/jerry-snapshot.c:138-289 | the blocks of a tree tile exactly its size |
| SnapshotModel.BlocksAtConcat | src/jerry/jerry-core/api/jerry-snapshot.c:448-521 | blocks written one after the other are one walk, and conversely |
| SnapshotModel.LinkLeadsToChild | src/jerry/jerry-core/api/jerry-snapshot.c:270-286 | a link of 0 is a self reference and nothing else; every other link is positive and leads to the stored child |
| SnapshotSave.SnapshotGlobals.WriteToBuffer | src/jerry/jerry-core/api/jerry-snapshot.c:105-121 | all of the data or nothing is written |
| SnapshotSave.SnapshotGlobals.AddRegExp | src/jerry/jerry-core/api/jerry-snapshot.c:178-227 | a regular expression is stored with its exact pattern, padded to 8 bytes without a write; the check against the buffer size is made before the padding |
| SnapshotSave.SnapshotGlobals.AddFunction | src/jerry/jerry-core/api/jerry-snapshot.c:232-288 | a function is stored with its children behind it and its slots patched, for every buffer size |
| SnapshotSave.SnapshotGlobals.AddCompiledCode | src/jerry/jerry-core/api/jerry-snapshot.c:138-289 | for every buffer size: without an earlier error it succeeds if and only if every block fits and none carries the tagged-literals flag; then the tree is stored from the old to the new write offset, nothing else changes, and the feature flags are those of the tree |
| SnapshotSave.CodeEndsInsideExactly | src/jerry/jerry-core/api/jerry-snapshot.c:197-216 | when everything fits, the write offset ends inside the buffer if and only if the aligned end of the last byte does, as it always does if the buffer size is a multiple of 8 |
| SnapshotSave.EndsInsideExactly | src/jerry/jerry-core/api/jerry-snapshot.c:197-216 | the new write offset is the aligned end of the last byte, less than 8 bytes behind the buffer, and inside if the last block is a function |
| SnapshotSave.RoomyFitsExactly | src/jerry/jerry-core/api/jerry-snapshot.c:165-170 | with enough space, saving fails if and only if a block has the tagged-literals bit |
| SnapshotExamples.PaddingBehindBuffer | src/jerry/jerry-core/api/jerry-snapshot.c:197-216 | a pattern of one character at the end, in a buffer of 55 bytes: every block fits and the write offset ends at 56 |
| SnapshotExamples.DotAllRefused | src/jerry/jerry-core/api/jerry-snapshot.c:165-170 | a regular expression with the `s` flag is refused in every buffer in which the same one without it is saved |
| SnapshotLiterals.SaveLiterals | src/jerry/jerry-core/ecma/base/ecma-literal-storage.c:520-646 | it succeeds if and only if the table fits; every map entry then leads to the content of its literal |
| SnapshotLiterals.LiteralSpaceExactly | src/jerry/jerry-core/ecma/base/ecma-literal-storage.c:535-541 | the space computed for the table is what is left of the buffer if and only if the write offset is inside; behind the buffer it underflows to the greatest table size |
| SnapshotLiterals.EntryReads | src/jerry/jerry-core/ecma/base/ecma-literal-storage.c:658-697 | an entry is read back exactly, except that a text comes back cut to its size modulo 65536 |
| SnapshotLiterals.SurvivesExactly | src/jerry/jerry-core/ecma/base/ecma-literal-storage.c:574-640 | a literal survives if and only if it is not a text of 65536 bytes or more |
| SnapshotMaps.FlattenMap | src/jerry/jerry-core/api/jerry-snapshot.c:448-521 | changing the words of a tree is changing the words of its blocks in place |
| SnapshotMaps.MapTreeThen | src/jerry/jerry-core/api/jerry-snapshot.c:448-521 | two changes of words in a row are one, as far as the words that occur are concerned |
| SnapshotMaps.MapTreeSame | src/jerry/jerry-core/api/jerry-snapshot.c:448-521 | word maps that agree on the words of a tree make the same tree |
| SnapshotMaps.SameValues | src/jerry/jerry-core/api/jerry-snapshot.c:448-521 | conversely word maps that make the same blocks agree on their words |
| SnapshotMaps.ResolvedStored | src/jerry/jerry-core/api/jerry-snapshot.c:541-722 | a stored tree, read through a resolver, is the resolved tree |
| SnapshotRelocate.Lookup | src/jerry/jerry-core/api/jerry-snapshot.c:481-488 | the unbounded search stops at the first entry of a literal that is in the map |
| SnapshotRelocate.RelocateTable | src/jerry/jerry-core/api/jerry-snapshot.c:473-490 | a table of literal words is replaced and nothing else |
| SnapshotRelocate.WalkNext | src/jerry/jerry-core/api/jerry-snapshot.c:448-453 | the walk is over exactly when no byte is left; otherwise the next block starts here and ends inside the area |
| SnapshotRelocate.WalkEnds | src/jerry/jerry-core/api/jerry-snapshot.c:448-521 | a finished walk has dealt with every block once and changed nothing outside |
| SnapshotRelocate.SetOffsets | src/jerry/jerry-core/api/jerry-snapshot.c:442-522 | the walk over the area replaces all constants and serialisable values, sets every reference count to 1 and keeps everything else |
| SnapshotFile.FunctionFound | src/jerry/jerry-core/api/jerry-snapshot.c:911-912 | the offset table leads to the stored functions |
| SnapshotGenerate.AppendValue | src/jerry/jerry-core/ecma/base/ecma-literal-storage.c:411-437 | a literal is appended once; what is no string, number or BigInt is not |
| SnapshotGenerate.CollectLiterals | src/jerry/jerry-core/ecma/base/ecma-literal-storage.c:443-508 | the pool holds every literal of the tree, each once |
| SnapshotGenerate.LookupsStopExactly | src/jerry/jerry-core/api/jerry-snapshot.c:473-512 | every lookup of the offset-setting walk stops inside the map if and only if no constant is BigInt zero, which is never pooled |
| SnapshotExamples.BigIntZeroLost | src/jerry/jerry-core/api/jerry-snapshot.c:473-490 | a function with the constant 0n: for every pool of its literals the lookup runs off the map |
| SnapshotGenerate.MapLeads | src/jerry/jerry-core/api/jerry-snapshot.c:481-488 | through the map and the table a pooled literal leads to its content |
| SnapshotGenerate.RelocatedMeans | src/jerry/jerry-core/api/jerry-snapshot.c:442-522 | the relocated tree, read through the literal table, means what the compiled code means through the engine storage |
| SnapshotGenerate.GenerateSnapshot | src/jerry/jerry-core/api/jerry-snapshot.c:735-853 | unless the padding ends behind the buffer: it fails if and only if a block or the table does not fit; otherwise the buffer starts with a snapshot whose function means what the compiled code means, long texts being cut |
| SnapshotGenerate.SavedExactly | src/jerry/jerry-core/api/jerry-snapshot.c:735-853 | nothing is lost if and only if the code has no text literal of 65536 bytes or more |
| SnapshotExamples.LongTextLost | src/jerry/jerry-core/ecma/base/ecma-literal-storage.c:574-640 | a constant text of 65536 bytes comes back empty |
| ExtendedInfo.DecodeVlq | src/jerry/jerry-core/ecma/base/ecma-extended-info.c:34-49 | the loop reads backwards, and gives the number and its place as the recursive reading has them |
| ExtendedInfo.EncodeVlq | src/jerry/jerry-core/ecma/base/ecma-extended-info.c:54-84 | both loops write exactly the bytes of the number in front of the given place |
| ExtendedInfo.VlqReadsBack | src/jerry/jerry-core/ecma/base/ecma-extended-info.c:34-84 | every 32-bit number is read back from its bytes, and where they begin, whatever is in front of them |
| ExtendedInfo.InfoReadsBack | src/jerry/jerry-core/parser/js/js-parser.c:1340-1353 | so is the info that the parser stores in front of the trailing values |
| SnapshotLoad.CopyBlock | src/jerry/jerry-core/api/jerry-snapshot.c:605-671 | whether a block is copied whole or without its instructions, all tables and trailing values are there; between them a redirected block has the opcode, the pointer and what the heap held |
| SnapshotLoad.InternTable | src/jerry/jerry-core/api/jerry-snapshot.c:681-687 | literal offsets are replaced by interned words and nothing else changes |
| SnapshotLoad.InternMeans | src/jerry/jerry-core/api/jerry-snapshot.c:681-719 | interned words through the storage are the offsets through the table |
| SnapshotLoad.LoadSlots | src/jerry/jerry-core/api/jerry-snapshot.c:689-706 | every slot gets the child its link leads to, 0 the function itself |
| SnapshotLoad.LoadCompiledCode | src/jerry/jerry-core/api/jerry-snapshot.c:541-722 | the machine sees the stored tree, for the copying load always, for the redirecting one if no function with extended info is redirected, and otherwise with what the memory has in place of that info; every loaded function has reference count 1 |
| SnapshotLoad.SeenSame | src/jerry/jerry-core/api/jerry-snapshot.c:605-671 | what a load shows is the tree itself, for the copying load always, for the redirecting one if no function of the tree with extended info is redirected |
| SnapshotLoad.RedirectExactly | src/jerry/jerry-core/api/jerry-snapshot.c:614-671 | the redirecting load shows the tree for all contents of the fresh heap blocks if and only if no function of the tree with extended info is redirected, wherever the snapshot lies |
| SnapshotLoad.FilledInfo | src/jerry/jerry-core/api/jerry-snapshot.c:645-668 | in a redirected block whose heap memory holds an odd number below 128 everywhere, the flags and the length are that number |
| SnapshotLoad.GapComplete | src/jerry/jerry-core/api/jerry-snapshot.c:645-668 | looking for the info of a redirected function ends at the opcode at the latest, before the literals |
| SnapshotLoad.FunctionLength | src/jerry/jerry-core/ecma/operations/ecma-function-object.c:1941-1966 | the property `length` is that of the extended info if it has one, and else the number of parameters |
| SnapshotExamples.LengthLost | src/jerry/jerry-core/api/jerry-snapshot.c:605-671 | a function of two parameters of which the second has a default value: copied it has the length 1, redirected any odd number below 128, as the heap has it |
| SnapshotLoad.ExecSnapshot | src/jerry/jerry-core/api/jerry-snapshot.c:865-984 | exactly which error is reported, and otherwise that the index-th function is loaded with the meaning the snapshot gives it, but for the extended info of redirected functions |
| SnapshotRoundTrip.SaveAndLoad | src/jerry/jerry-core/api/jerry-snapshot.c:735-984 | saved and loaded again into an engine that interns the literals under words of its own: whenever saving succeeds loading does, and the machine sees the code that was saved if it is copied or no function with extended info is redirected, without loss if no text literal has 65536 bytes or more |
| SnapshotMerge.ScanFunctions | src/jerry/jerry-core/api/jerry-snapshot.c:1054-1112 | the read-only walk pools every literal of the area, and only those |
| SnapshotMerge.UpdateCovered | src/jerry/jerry-core/api/jerry-snapshot.c:1150-1185 | every lookup during a merge stops inside the map because the scan has pooled the literal |
| SnapshotMerge.UpdateMeans | src/jerry/jerry-core/api/jerry-snapshot.c:1150-1185 | a word of an input and the word that replaces it resolve to the same value, each through its own table |
| SnapshotMerge.UpdateOffsets | src/jerry/jerry-core/api/jerry-snapshot.c:1118-1190 | the updating walk replaces exactly the literal offsets of the area |
| SnapshotMerge.ScanInputs | src/jerry/jerry-core/api/jerry-snapshot.c:1221-1252 | header errors, total sizes, united flags, and a pool of exactly the literals of all inputs |
| SnapshotMerge.PlaceInput | src/jerry/jerry-core/api/jerry-snapshot.c:1293-1315 | an input ends up in its place, with its words updated and its function offsets rebased |
| SnapshotMerge.PlaceInputs | src/jerry/jerry-core/api/jerry-snapshot.c:1287-1318 | so do all inputs, and the copy ends exactly at the merged literal table |
| SnapshotMerge.MergedMeans | src/jerry/jerry-core/api/jerry-snapshot.c:1287-1318 | the merged functions through the merged table are the functions of the inputs in order |
| SnapshotMerge.MergeSnapshots | src/jerry/jerry-core/api/jerry-snapshot.c:1201-1338 | exactly which error is reported; otherwise the output is a snapshot of the functions of all inputs in order, each with the meaning it has in its input, its size is the header, the code and the table of the literals, and it may be merged again |
| SnapshotMerge.MergeableExactly | src/jerry/jerry-core/api/jerry-snapshot.c:1221-1252 | a snapshot meets what a merge asks of an input if and only if its functions do, whatever words and table it uses |
| SnapshotRemerge.PoolFromFunctions | src/jerry/jerry-core/api/jerry-snapshot.c:1221-1252 | the literals that a merge collects are those of its functions, however they are spread over the inputs |
| SnapshotRemerge.EndAlike | src/jerry/jerry-core/api/jerry-snapshot.c:1201-1338 | merges of the same functions in the same order end with the same result and size in buffers of the same size |
| SnapshotRemerge.GroupReplaced | src/jerry/jerry-core/api/jerry-snapshot.c:1287-1318 | an input that holds the functions of a group may stand for the group at any place of the list |
| SnapshotRemerge.MergeInGroups | src/jerry/jerry-core/api/jerry-snapshot.c:1201-1338 | merging a group first and its output with the inputs before and after the group gives the functions of one flat merge, in as many bytes, and succeeds exactly when that does |
| LiteralSort.OrderTotal | src/jerry/jerry-core/api/jerry-snapshot.c:1353-1365 | literals that are not less than each other are equal; the order is strict |
| LiteralSort.OrderTransitive | src/jerry/jerry-core/api/jerry-snapshot.c:1353-1365 | "not greater" is transitive |
| LiteralSort.HeapMax | src/jerry/jerry-core/api/jerry-snapshot.c:1373-1392 | the place of the greatest of a node and its children in the heap |
| LiteralSort.DownHeap | src/jerry/jerry-core/api/jerry-snapshot.c:1398-1417 | sifting down restores the heap from the node on and permutes only that part |
| LiteralSort.BuildHeap | src/jerry/jerry-core/api/jerry-snapshot.c:1427-1434 | the first loop makes a heap of a permutation and ends although its index wraps around |
| LiteralSort.RootIsGreatest | src/jerry/jerry-core/api/jerry-snapshot.c:1436-1447 | the root of a heap is a greatest element |
| LiteralSort.Sort | src/jerry/jerry-core/api/jerry-snapshot.c:1423-1448 | the array ends up sorted and holds the same literals as often |
| LiteralSort.SortedUnique | src/jerry/jerry-core/api/jerry-snapshot.c:1423-1448 | there is only one sorted order |
| LiteralList.ListWriter.AppendChars | src/jerry/jerry-core/api/jerry-snapshot.c:1456-1475 | all characters or none are written, and nothing ever behind a text that did not fit |
| LiteralList.ListWriter.Print | src/jerry/jerry-core/api/jerry-snapshot.c:1666-1715 | the list and its size if it fits, else 0 |
| LiteralList.ParseList | src/jerry/jerry-main/main-snapshot.c:314-328 | the loop finds the items of the recursive reading |
| LiteralList.DigitsRead | src/jerry/jerry-main/main-snapshot.c:320 | a printed number is read back |
| LiteralList.LinesParsed | src/jerry/jerry-main/main-snapshot.c:314-328 | the lines are found in order, then the last newline is looked at once more |
| LiteralList.ListParsesBack | src/jerry/jerry-main/main-snapshot.c:314-328 | the printed literals that are not empty come back in order, for any bytes, if and only if what lies in memory behind the list does not read as a number |
| LiteralList.EndOfList | src/jerry/jerry-main/main-snapshot.c:309-328 | the zero byte that follows the file is such memory |
| DebuggerProtocol.HeadAccepted | src/jerry/jerry-core/debugger/debugger.c:652-657 | in every state that the invariant allows the next message is not refused |
| DebuggerProtocol.ServerKeeps | src/jerry/jerry-core/debugger/debugger.c:644-1077 | a processed message keeps the invariant of the pair |
| DebuggerProtocol.ClientKeeps | src/jerry/jerry-debugger/jerry_client_main.py:664-815 | so does a message the client handles |
| DebuggerProtocol.UserKeeps | src/jerry/jerry-debugger/jerry_client_main.py:426-553 | so does a command, a stop or a configuration |
| DebuggerProtocol.EngineKeeps | src/jerry/jerry-core/debugger/debugger.c:1090-1188 | so does a hit, a wait for a source or a parse, a release, an output, or the end of a receive call |
| DebuggerProtocol.RunKeeps | src/jerry/jerry-core/debugger/debugger.c:1090-1188 | every run keeps the invariant |
| DebuggerProtocol.NeverRefused | src/jerry/jerry-core/debugger/debugger.c:644-1077 | in every run: the connection stays, no message is refused, at the prompt the server is in breakpoint mode with no request, reply or resumption under way, breakpoint commands only reach a server in breakpoint mode, sources only one in source mode, a parser resumption only one that waits, and byte code is freed in the order of release |
| DebuggerResumption.ResumesExactly | src/jerry/jerry-core/debugger/debugger.c:793-844 | behind any messages the resume flag is set if and only if one of them asks for a resumption and no stop is behind it, or it was set before and there is no stop |
| DebuggerResumption.LeavesExactly | src/jerry/jerry-core/debugger/debugger.c:1090-1141 | the end of the receive call leaves the breakpoint if and only if no payload is under way and some resumption has no stop behind it |
| DebuggerResumption.CarriedOutExactly | src/jerry/jerry-core/debugger/debugger.c:1090-1188 | in every run: a server at a breakpoint that takes the whole queue in one receive call goes on if and only if some resumption in the queue has no stop behind it |
| DebuggerResumption.LostRun | src/jerry/jerry-core/debugger/debugger.c:793-801 | a run from the start in which continue and stop are handled together: the server stays at the breakpoint, the client has no prompt, and nothing is on the way |
| DebuggerResumption.LostForEver | src/jerry/jerry-core/debugger/debugger.c:1090-1188 | from there no run leaves the breakpoint or gives the prompt back |
| DebuggerProtocol.DebuggerContext.ProcessMessage | src/jerry/jerry-core/debugger/debugger.c:644-1077 | the state machine with its flags and switch is the specified step |
| DebuggerProtocol.DebuggerContext.OnFree | src/jerry/jerry-core/debugger/debugger.c:727-767 | byte code is freed only in the order of release |
| DebuggerProtocol.DebuggerContext.OnPart | src/jerry/jerry-core/debugger/debugger.c:659-724 | only the awaited part is taken |
| DebuggerProtocol.DebuggerContext.OnResume | src/jerry/jerry-core/debugger/debugger.c:803-844 | next, step, finish, continue set their modes and the resume flag |
| Fragments.SendString | src/jerry/jerry-debugger/jerry_client_main.py:555-601 | the messages of a payload |
| Fragments.PartsLead | src/jerry/jerry-core/debugger/debugger.c:659-724 | from any point inside a payload the remaining parts lead to its end, all but the last asking for more |
| Fragments.PayloadArrives | src/jerry/jerry-core/debugger/debugger.c:659-724 | every payload is accepted and reassembled exactly, for every agreed message size, and acted on once, with its last message |
| Fragments.Assembler.TakePart | src/jerry/jerry-core/debugger/debugger.c:659-724 | the continuation code is the specified step; between messages at least one byte is there and one is missing |
| Fragments.Assembler.TakeFirst | src/jerry/jerry-core/debugger/debugger.c:925-1032 | so is the code for the first message |
| ScopeVariables.Writer.CopyHeader | src/jerry/jerry-core/debugger/debugger.c:343-374 | type and length are appended, over a message boundary where needed |
| ScopeVariables.Writer.CopyText | src/jerry/jerry-core/debugger/debugger.c:376-414 | the text is appended, over as many messages as it takes |
| ScopeVariables.Writer.CopyVariable | src/jerry/jerry-core/debugger/debugger.c:330-415 | a name, or a value cut at 255 and empty for functions |
| ScopeVariables.Writer.SendVariables | src/jerry/jerry-core/debugger/debugger.c:421-524 | every message but the last is full, exactly one is the last, and together they carry the records in order |
| ScopeVariables.ProcessScopeVariables | src/jerry/jerry-debugger/jerry_client_main.py:1158-1200 | the loop over the joined messages is the recursive reading |
| ScopeVariables.ParseStream | src/jerry/jerry-debugger/jerry_client_main.py:1158-1200 | reading the records gives every variable back in order, as far as it is shown |
| ScopeVariables.ScopeArrives | src/jerry/jerry-debugger/jerry_client_main.py:800-809 | however the records fall across messages the client sees what the server wrote |
| ClientIndex.NewFunction | src/jerry/jerry-debugger/jerry_client_main.py:184-206 | a line has the last of its breakpoints, with its offset |
| ClientIndex.SettableExactly | src/jerry/jerry-debugger/jerry_client_main.py:184-206 | a breakpoint of a function can be set if and only if no later one is on its line |
| ClientIndex.SharedLine | src/jerry/jerry-debugger/jerry_client_main.py:184-206 | breakpoints at offsets 8 and 12 of line 5: only the one at 12 can be set |
| ClientIndex.Multimap.Insert | src/jerry/jerry-debugger/jerry_client_main.py:227-231 | the value goes to the end of its list |
| ClientIndex.Multimap.Delete | src/jerry/jerry-debugger/jerry_client_main.py:233-239 | a list of one goes unseen, else the first occurrence of the value |
| ClientIndex.DeleteAgrees | src/jerry/jerry-debugger/jerry_client_main.py:1021-1024 | the breakpoint that is released is always in its list, and the lists then agree with the functions without it |
| ClientIndex.InsertAgrees | src/jerry/jerry-debugger/jerry_client_main.py:973-975 | a new breakpoint keeps the lists in agreement |
| ClientIndex.Client.Enable | src/jerry/jerry-debugger/jerry_client_main.py:1041-1045 | a breakpoint without an index gets the next one and the server is told; all indexes still agree |
| ClientIndex.Client.Give | src/jerry/jerry-debugger/jerry_client_main.py:1041-1045 | giving the next index keeps entries and carriers in agreement |
| ClientIndex.Client.Disable | src/jerry/jerry-debugger/jerry_client_main.py:413-418 | an active breakpoint goes, and exactly its place is disabled on the server |
| ClientIndex.Client.DisableAll | src/jerry/jerry-debugger/jerry_client_main.py:395-400 | all active breakpoints go |
| ClientIndex.Client.Delete | src/jerry/jerry-debugger/jerry_client_main.py:389-424 | what is deleted for each argument, and nothing else |
| ClientIndex.Client.EnableLine | src/jerry/jerry-debugger/jerry_client_main.py:1058-1064 | exactly the breakpoints on the line whose source matches become active |
| ClientIndex.Client.EnableFunction | src/jerry/jerry-debugger/jerry_client_main.py:1066-1075 | exactly the first breakpoints of the functions of that name become active |
| ClientIndex.Client.SetBreakpoint | src/jerry/jerry-debugger/jerry_client_main.py:1050-1092 | what is found becomes active; only if nothing is found and the user agrees is there a pending breakpoint |
| ClientIndex.Client.EnablePending | src/jerry/jerry-debugger/jerry_client_main.py:1031-1039 | a pending breakpoint exists once and makes the server wait after parsing |
| ClientIndex.Client.Release | src/jerry/jerry-debugger/jerry_client_main.py:1015-1028 | a released function goes with its lines and active breakpoints, others stay |
| ClientIndex.Client.AddFunctions | src/jerry/jerry-debugger/jerry_client_main.py:970-975 | new functions enter all indexes |
| ClientIndex.Client.TryPending | src/jerry/jerry-debugger/jerry_client_main.py:983-1005 | a pending breakpoint goes if and only if it finds something and the source is long enough |
| ClientIndex.Client.ParseCompleted | src/jerry/jerry-debugger/jerry_client_main.py:970-1012 | after a parse: the functions are there, every pending breakpoint is settled, and the server waits for parses exactly while one is left |
| ClientRuns.NeverReused | src/jerry/jerry-debugger/jerry_client_main.py:1036-1044 | along successive states an index never changes its meaning and is never given again |
| ClientRuns.ServeAll | src/jerry/jerry-debugger/jerry_client_main.py:389-424 | for every sequence of break and delete commands, releases and parses: an index that was given once is never given again, and one in use never changes its breakpoint |
| Framing.SendAll | src/jerry/jerry-debugger/jerry_client_rawpacket.py:52-60 | partial sends deliver every byte once and in order |
| Framing.FirstFrame | src/jerry/jerry-debugger/jerry_client_rawpacket.py:69-79 | what the first bytes of a stream of frames say |
| Framing.Channel.GetMessage | src/jerry/jerry-debugger/jerry_client_websocket.py:102-131 | on a stream of frames, however it is cut: the next message as soon as it is complete, nothing yet, or the end behind the last message; never a bad frame |
| Framing.Channel.Calls | src/jerry/jerry-debugger/jerry_client_rawpacket.py:62-88 | any mix of blocking and other calls gives a prefix of the messages in order and keeps the rest |
| Framing.Channel.SendRaw | src/jerry/jerry-debugger/jerry_client_rawpacket.py:52-60 | all of the data, which holds its own size, is sent |
| Framing.Channel.SendWeb | src/jerry/jerry-debugger/jerry_client_websocket.py:89-96 | a short binary frame with a mask of zeros |
| Framing.ReceiveCompleted | src/jerry/jerry-core/api/jerry-debugger-transport.c:213-237 | the unread suffix moves to the front |
| Framing.TransportSend | src/jerry/jerry-core/api/jerry-debugger-transport.c:155-181 | the payloads, none empty or too long, make up the message, and there are as few as possible |
| UnicodeTables.SplitsDecodes | src/jerry/tools/gen-unicode.py:352-417 | a table and the rest give the map back, every entry once |
| UnicodeTables.SplitsThen | src/jerry/tools/gen-unicode.py:661-706 | one extraction after another splits the map |
| UnicodeExtract.CaseTables.DeleteRanges | src/jerry/tools/gen-unicode.py:400-415 | no deletion misses its key |
| UnicodeExtract.CaseTables.ExtractRanges | src/jerry/tools/gen-unicode.py:352-417 | the map is split into eligible ranges and the rest, the upper map loses exactly their inverses, and no two neighbours in the rest could have been in a range |
| UnicodeExtract.PairFollows | src/jerry/tools/gen-unicode.py:433-452 | within a pair range the key two before is the one visited last; this needs what the first extraction leaves behind |
| UnicodeExtract.CaseTables.ExtractPairRanges | src/jerry/tools/gen-unicode.py:420-465 | the pair ranges are bidirectional entries, split off without loss |
| UnicodeExtract.CaseTables.ExtractPairs | src/jerry/tools/gen-unicode.py:468-488 | exactly the remaining bidirectional entries |
| UnicodeExtract.CaseTables.ExtractLength | src/jerry/tools/gen-unicode.py:556-592 | exactly the entries with so many characters for a value |
| UnicodeExtract.CaseTables.ExtractConversions | src/jerry/tools/gen-unicode.py:550-594 | exactly the entries with one, two or three |
| UnicodeExtract.CaseTables.LowerCaseTables | src/jerry/tools/gen-unicode.py:661-706 | the five tables split the lower-case map, the first three hold exactly its bidirectional entries, and the upper map loses exactly their inverses |
| UnicodeExtract.TablesDecode | src/jerry/tools/gen-unicode.py:661-706 | the tables decode to the whole map if and only if no value is longer than three characters |
| MagicGuards.TrimGuard | src/jerry/tools/gen-strings.py:193-197 | the guard goes if one reference has its negation; with two the second removal is a KeyError |
| MagicGuards.DropLonger | src/jerry/tools/gen-strings.py:198-202 | the clauses that hold more than this one go |
| MagicGuards.CalculateGuards | src/jerry/tools/gen-strings.py:189-203 | for every order in which the sets are traversed the loop gives the specified result, an error or the clauses that remain |
| MagicGuards.FailsExactly | src/jerry/tools/gen-strings.py:193-197 | it fails if and only if, in the turn of a slot that is there, two slots hold the negation of a guard when that guard is visited |
| MagicGuards.FailsOnlyTwiceOpposed | src/jerry/tools/gen-strings.py:189-203 | in any order it can only fail if some guard of a reference has its negation in two references |
| MagicGuards.SteadyFailsExactly | src/jerry/tools/gen-strings.py:189-203 | if no reference holds more than what another one keeps in every run, and no negation is negated again, it fails if and only if some guard of a reference has its negation in two references |
| MagicGuards.OrderDoesNotMatter | src/jerry/tools/gen-strings.py:189-203 | if no reference has a guard together with its negation, the result does not depend on the order |
| MagicGuards.PlainFailsExactly | src/jerry/tools/gen-strings.py:193-197 | then it fails if and only if in some turn a guard has its negation in two slots, whatever the order |
| MagicGuards.TwoNegationsFail | src/jerry/tools/gen-strings.py:193-197 | three references, two of which negate a guard of the first: it fails in every order |
| MagicGuards.SimplifiedParts | src/jerry/tools/gen-strings.py:189-203 | each reference has a clause left with no more than its guards, no clause contains another, and only guards are left out whose negation some reference has |
| MagicMeaning.SimplifiedCovers | src/jerry/tools/gen-strings.py:189-203 | the simplified condition holds wherever a reference is compiled, for all truth values |
| MagicMeaning.SimplifiedExactly | src/jerry/tools/gen-strings.py:189-203 | any number of references in any order: it is the condition of the references, for all values of the expressions, if and only if every clause that remains is impossible or whatever one picks from each reference beyond it contains opposites |
| MagicMeaning.PlainExactly | src/jerry/tools/gen-strings.py:189-203 | the same on the references alone, whatever the order, if none has a guard beside its negation |
| MagicMeaning.AnsweredExact | src/jerry/tools/gen-strings.py:189-203 | any number of references: it is the condition of the references if every guard that can be trimmed is an `#if` guard and some reference has its opposite and otherwise only what cannot be trimmed from the first |
| MagicMeaning.TwoExactly | src/jerry/tools/gen-strings.py:189-203 | any two references without a guard beside its own negation, in either order and with negations in either or both: it is the condition of the references, for all values, if and only if what is left of each is impossible, or the two references say nothing beyond it, one of them, or one thing and its opposite |
| MagicMeaning.BothWaysWeaken | src/jerry/tools/gen-strings.py:193-197 | two references whose guards say different things and can hold, each with an `#if` guard that the other has negated, always lose something |
| MagicMeaning.IntendedUse | src/jerry/tools/gen-strings.py:193-197 | A and C or not A becomes C or not A, and means the same |
| MagicMeaning.WeakerExample | src/jerry/tools/gen-strings.py:193-197 | A and C or not A and D becomes C or not A and D, which holds where no reference is compiled |
| MagicMeaning.NegationFirst | src/jerry/tools/gen-strings.py:189-203 | B and not Z or D and Z becomes B and not Z or D, which D alone makes true |
| MagicMeaning.NegationsInBoth | src/jerry/tools/gen-strings.py:193-197 | A and not B or B and not A becomes not B or not A |
| MagicMeaning.IfndefExample | src/jerry/tools/gen-strings.py:120-150 | an `#ifndef X` and the `#else` of an `#ifdef X` say the same but are trimmed like opposites, and the result is weaker |
| MagicMeaning.NegationSays | src/jerry/tools/gen-strings.py:193 | what is taken for the negation of a guard is its opposite if the guard begins with the space of its `#if`; of a guard that begins with an exclamation mark it says the same |
| MagicTexts.TextCovers | src/jerry/tools/gen-strings.py:213-215 | the written condition holds wherever all guards of a clause do, in any order and whatever "or" they contain |
| MagicTexts.TextExactly | src/jerry/tools/gen-strings.py:213-215 | for two or more different guards of given shapes: the written condition is the clause, for all truth values, if and only if no guard has an "or" of its own |
| MagicTexts.OneGuardText | src/jerry/tools/gen-strings.py:213-215 | a single guard is written as it is |
| MagicTexts.TextExample | src/jerry/tools/gen-strings.py:213-215 | A or B, and C: without parentheses A alone makes it true |
| MagicStrings.GenerateDefs | src/jerry/tools/gen-strings.py:227-241 | for all macros the preprocessor keeps exactly the enabled definitions, and the directives match |
| MagicStrings.GenerateChain | src/jerry/tools/gen-strings.py:249-269 | for all macros the chain of a size leaves exactly the first enabled string of at least that size |
| MagicStrings.FirstIsFirst | src/jerry/tools/gen-strings.py:249-269 | that line is the one of an enabled, long enough string before which there is none, or none is enabled |
| MagicStrings.GenerateFirst | src/jerry/tools/gen-strings.py:244-269 | so for every size up to that of the last string |
| MagicStrings.ReferencedIsDefined | src/jerry/tools/gen-strings.py:272-285 | a string is defined wherever one of its references is compiled |

## Left out

- Static snapshots, script arguments other than the parsed code, and the C format of the literal list.
- Build options: source names, line information and function-to-string data in snapshots are off; the model is that of a 64-bit
  engine with 32-bit literal words.
- SnapshotGenerate.GenerateSnapshot: requires that no constant is BigInt zero, since the search for it runs past the map, and that the
  padding of a last pattern ends inside the buffer, since the table is stored behind the buffer otherwise;
  SnapshotGenerate.LookupsStopExactly and SnapshotSave.CodeEndsInsideExactly say that these are exactly the cases in which they do. The
  pool may hold more than the literals of the tree, because the first loop of `ecma_save_literals_add_compiled_code` still reads
  mapped arguments where an earlier layout kept them; when there are more arguments than literals it reads instructions, and a word
  there that looks like a literal counts as one in the model.
- SnapshotLoad.LoadCompiledCode: the engine's interning is a function that gives back what it was given; NaN literals, which
  compare unequal to themselves, and numbers stored as integers are therefore not covered. The script value that the loader
  stores into the header of a function is no part of what the machine is said to see, nor is the list of tagged templates of a
  function with extended info (no saved function has such a list), nor the flag that a build with the debugger sets in the header. In a
  copied block the search for extended info stops at the literals; the engine reads on if the block has no end of the number there, which
  the parser always writes (ExtendedInfo.InfoReadsBack). Source code ranges in the extended info belong to function-to-string data.
- SnapshotMerge.MergeSnapshots: inputs with a good header are assumed to be snapshots without static functions, and interning as above.
  In SnapshotRemerge.MergeInGroups all merges happen in one engine.
- SnapshotLiterals.SaveLiterals: texts are shorter than 2^31 bytes.
- `jerry_exec_snapshot` behind the loading: the call of the code, source names and script values.
- LiteralList.ListParsesBack: `strtol` is on unbounded integers, without its limit for numbers that do not fit; the number of magic
  strings that the arrays of `main-snapshot.c` can take is not modelled.
- Sqrt.Sqrt: the floating addition that finds out the rounding direction is a parameter, the direction.
- Rounding.Floor: the comparison with `huge` that raises the inexact flag is true for all the values it is made for.
- Floating-point exception flags.
- Polynomial and rational approximations, `scalbn`, and the rest of `trig.c`: the products with 2/pi and pi/2, the recomputation and
  the kernels.
- QuadrantDigits.Quarters: chunks are at most 3 * 2^48, which three products of 24-bit numbers do not exceed.
- DebuggerProtocol.NeverRefused: safety only. Messages of the server that only carry text or data for display are one kind of message,
  whether an evaluation raises is a choice of the model, sends do not fail, and the client never sends a context reset. A receive
  call inside an evaluation that waits for the parser is not modelled, nor are the inner loops in which the client collects texts
  and parse messages.
- Fragments.PayloadArrives: an evaluation holds at least its scope index, and a source at least one byte, as the client sends them.
- ScopeVariables.ScopeArrives: bytes, not characters; how the client decodes UTF-8 is left out, and so is the drawing of the table.
  Scope chains that take more than one message are overwritten by the client and not modelled.
- ClientRuns.ServeAll: a release of an unknown function and new functions under pointers in use, which the server does not send, are ignored.
- ClientIndex.Client.AddFunctions: the byte code of a new function is not in use, and its offsets differ, as the server promises; source
  text, the order in which dictionaries are traversed, and the search for the breakpoint nearest to an offset are left out.
- Framing.Channel.GetMessage: the handshake, the configuration message and the server's side of the WebSocket.
- Sockets, serial ports, consoles, files and arguments.
- `extract_special_ranges`, the upper-case tables and `create_tables` of `gen-unicode.py`, and reading the Unicode data files.
- MagicMeaning.SimplifiedExactly: expressions with different texts, but for parentheses around the whole, count as independent; where
  they are not, fewer values occur, and a result that is exact here stays exact. An expression that begins with `!` and stands
  directly behind `#if`, without a space, is read as the negation of the whole rest.
- Which guards stand around a reference (the scan of the source files) and the sorting of magic strings.
- MagicStrings.GenerateFirst: the list of strings is not empty; the program fails on an empty one.
