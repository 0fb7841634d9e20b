# njs, a JavaScript engine in C: a model of its core and proofs about it

The project models the parts of njs where a mistake is hardest to see: the bytecode generator, the level hash, the
conversion of doubles to decimal text, the memory pool, arrays and their sort, dates, digests and JSON.  What the source
updates in place is a class or an array with loops here (the code generator, the level hash and its walk, the pool, the
array, the digest contexts, the JSON buffer and parser); what it computes is a function.  Every operation is proved
against a specification that does not follow its code, and the promises of the source are proved about that.

- **Generator** (`Bytecode`, `Syntax`, `Readings`, `CodeMeaning`, `CodeHoles`, `CodeJoins`, `Patching`, `Scripts`,
  `Generator`).  `Syntax.Execute` gives the meaning of the tree, cut after any number of turns of its loops;
  `Bytecode.Step` is the interpreter's loop.  The operators of the language are parameters, so the results hold for any
  meaning of them.  `Generator.Compile` appends code, patches jumps through the lists of the open blocks and recycles
  temporaries, as the source does.  The tree has two readings: in the language a left operand keeps its value while the
  right one is evaluated; as the generator writes it, an operand that is in a variable is read again after the right one
  (`Syntax.LeftValue`).
- **Level hash** (`LevelHash*`).  Blocks of memory addressed by words that carry tags in their low bits; `Table.Valid`
  ties them to a tree and to a map from hash and key to value.
- **Numbers** (`DigitGeneration`, `DiyFloats`, `CachedPowers`, `Grisu`, `NumberText`, `Wide`, `FixedDtoa` and helpers).
  64-bit words are written out; the value of a double is a real number.
- **Pool** (`Pool*`, `SearchTree`).  Clusters, pages with bitmaps of chunks, large blocks, and the search tree of blocks;
  `live` is the set of blocks handed out and not freed.
- **Arrays** (`ArrayStorage`, `StableSorting`).  Cells in a larger buffer with a start that moves.
- **Dates** (`Calendar`, `IsoDates`), **digests** (`Digests`, `Hmacs`) and **JSON** (`Json*`, `Utf8Text`).

Which requests for memory are granted is an input (`Allocations`): the requests of a hash table, a pool, a serializer or
a parser are numbered in the order in which they are made, and each operation fails for want of memory exactly when a
request it made was refused.

`dafny verify dfyconfig.toml` checks everything.

## Model

| member | source | states |
|---|---|---|
| `Generator.Compile` | src/njs_generator.c:260-474 | compilation fails exactly when the tree is too deep or a break or continue has no block; otherwise, for every script, the code means the script as written, and so does every stretch of it the part of the tree it belongs to, with the joining instructions in between, up to the stop instruction that ends the code; each break and continue in these stretches is one jump forward to the end or the continuation of its block; and if all left operands are kept the code means the script as the language has it |
| `Readings.NameKept` | src/njs_generator.c:2095-2107 | a plain name that the right operand neither increments nor decrements keeps its value while it is evaluated, in both readings and for all operators: the generator's test for side effects misses no assignment |
| `Scripts.NameKeptInCode` | src/njs_generator.c:2076-2143 | so the code of a binary operation or a compound assignment on such a name stops with what the language asks for, and with nothing else |
| `Generator.CompileSaved` | src/njs_generator.c:2095-2107 | the code made for `a + (a = 5)` with a = 1 stops with 6 and with nothing else |
| `Scripts.HaltsExactly` | src/njs_generator.c:1564-1594 | code that means a script stops exactly when the script comes to an end, with the same value and the same variables; a script that never ends keeps the machine going |
| `Scripts.OperationExactly` | src/njs_generator.c:2076-2143 | the code of one binary operation on safe operands stops with what the language asks for exactly when the operator cannot tell the left value from what its variable holds after the right operand |
| `Readings.SafeExecute` | src/njs_generator.c:1736-1854 | statements in which every left operand is kept do the same in both readings, for any number of turns of their loops |
| `Readings.OperationAgrees` | src/njs_generator.c:2076-2143 | exactly when both readings of a binary operation agree |
| `Readings.AssignmentAgrees` | src/njs_generator.c:1736-1854 | exactly when both readings of `x op= e` agree |
| `Readings.ResultHolds` | src/njs_generator.c:1613-1733 | the value of an expression is in the variable whose index the generator returns for it |
| `Generator.CompileAssignment` | src/njs_generator.c:2095-2107 | the code made for `(a = b) + (b = 5)` with b = 1 stops with 10 and not with 6 |
| `Generator.CompileIncrement` | src/njs_generator.c:2095-2107 | the code made for `a + a++` with a = 0 stops with 1 and not with 0 |
| `Generator.CodeGenerator.GenExpr` | src/njs_generator.c:477-492 | code for an expression leaves its value in the returned index, disturbs no busy temporary, only appends, and fails exactly at the nesting limit |
| `Generator.CodeGenerator.GenStmt` | src/njs_generator.c:1505-1518 | code for a statement means it however the holes of the open blocks are filled later; new holes are only in new code |
| `Generator.CodeGenerator.GenSwitch` | src/njs_generator.c:793-921 | the same for a switch: tests in order, one jump to the default clause wherever it stands, bodies falling through |
| `Generator.CodeGenerator.GenFor` | src/njs_generator.c:1028-1127 | the same for a for loop with any of its three parts left out; continue leads to the update |
| `Generator.CodeGenerator.PatchBlock` | src/njs_generator.c:1326-1338 | every field on the list of a closed block gets the distance to its target, once; no other word changes |
| `Generator.CodeGenerator.LookupBlock` | src/njs_generator.c:1237-1300 | the innermost open block of the wanted kind and label |
| `CodeMeaning.LaidAhead` | src/njs_generator.c:1381-1409 | for code whose parts are in place and mean their subtrees: where the open blocks end and continue after the statement, all its breaks and continues lead forward |
| `CodeMeaning.JumpLaid` | src/njs_generator.c:1412-1502 | the code of a break or continue in place is one jump to the end or continuation of the innermost matching block, by at least two words, so no field keeps its first offset of one |
| `CodeMeaning.LoopJumps` | src/njs_generator.c:924-979 | in a while loop in place whose body is a break or a continue, the second instruction leads to the end of the loop, or to its test |
| `CodeMeaning.BinaryOk` | src/njs_generator.c:2076-2143 | operand codes followed by the three-address instruction mean the operation as written |
| `CodeMeaning.BodyYields` | src/njs_generator.c:924-1127 | body, update and test of a loop in a row do what the loop does, for any number of turns |
| `CodeMeaning.TestsSelect` | src/njs_generator.c:793-921 | the chain of tests enters the first clause strictly equal to the discriminant, or the jump after them |
| `CodeMeaning.InnerDestination` | src/njs_generator.c:1237-1300 | a break or continue the new block takes leads to it, any other goes where it went before |
| `LevelHash.Table.Find` | src/njs_lvlhsh.c:171-255 | finds exactly the value the map holds for hash and key |
| `LevelHash.Table.Insert` | src/njs_lvlhsh.c:258-439 | the map gets the pair, or is unchanged when the key is there and must not be replaced or memory fails, with the matching status and out value; never a second entry for a key; memory fails exactly when a request made in the call was refused |
| `LevelHash.Table.Delete` | src/njs_lvlhsh.c:620-732 | the map loses exactly the key, buckets and levels that become empty go with it |
| `LevelHash.Table.Convert` | src/njs_lvlhsh.c:442-589 | a full chain turned into a level keeps its items; when memory fails all blocks taken are given back |
| `LevelHashEach.All` | src/njs_lvlhsh.c:735-854 | where the shifts sum to at most 32 the walk gives every item exactly once, and only stored ones, and ends |
| `LevelHashEach.Calls` | src/njs_lvlhsh.c:735-854 | for a valid table whose levels begin inside a 32-bit position: more calls than items reach the end exactly when all slot numbers fit in the position |
| `LevelHashSlab.WalkForever` | src/njs_lvlhsh.h:59-61 | a table with the large slab shifts and one item whose walk goes on for any number of calls |
| `LevelHashOrder.PredefinedShifts` | src/njs_lvlhsh.h:54-66 | which of the predefined tables fit: sums 28, 26 and 34 |
| `LevelHashOrder.NextCyclic` | src/njs_lvlhsh.c:775-822 | at a level that does not fit, the next slot comes round after the slots that can be counted, with the other bits kept, and never ends |
| `LevelHashOrder.FlatOnce` | src/njs_lvlhsh.c:775-854 | the order of the walk holds exactly the items of the tree, each once |
| `DigitGeneration.DigitGen` | src/njs_dtoa.c:117-204 | the digits written denote a number in the interval of width delta below high, at most 29 of them, the first not zero; no number of fewer digits is inside, and, where the margin is kept, no other last digit inside is nearer to the value |
| `DigitGeneration.Round` | src/njs_dtoa.c:42-53 | lowering the last digit moves the same amount into the rest, which stays at most delta; no other digit changes; of all numbers reached by lowering it further or less far within delta none is nearer to the margin |
| `DiyFloats.MulRounds` | src/njs_diyfp.h:154-200 | the product is the 128-bit product rounded to its upper half |
| `DiyFloats.MulFormsAgree` | src/njs_diyfp.h:154-200 | both forms of the product agree for all operands, and no partial product overflows 64 bits |
| `DiyFloats.ToDouble` | src/njs_diyfp.h:87-130 | the double next to the value towards zero, and exactly when infinity or zero comes back instead |
| `DiyFloats.ToDoubleInverts` | src/njs_diyfp.h:57-130 | a double taken apart and put together is the same double |
| `CachedPowers.AllNear` | src/njs_diyfp.c:23-111 | each of the 87 powers of ten of the table lies between two bounds of 128 bits; with `CachedPowers.RowOk` the entry is the power to within half a unit |
| `CachedPowers.CachedPowerBin` | src/njs_diyfp.c:132-149 | for every exponent a double can have, the entry found brings the product into -60 to -32, whatever the machine's rounding of the logarithm within 10^-9 |
| `CachedPowers.Window` | src/njs_diyfp.c:132-149 | where the entry found brings the exponent |
| `Grisu.Grisu2` | src/njs_dtoa.c:320-347 | for every positive finite double the digits denote a number strictly between its boundaries, and are the shortest in the interval of the scaled double, with the last digit nearest to it |
| `Grisu.ReadBack` | src/njs_dtoa.c:292-347 | a number between the boundaries of a double is nearer to it than to any other double |
| `Grisu.ReadBackAll` | src/njs_dtoa.c:555-582 | so reading it to the nearest double gives the double back |
| `Grisu.Dtoa` | src/njs_dtoa.c:555-582 | the text printed for any finite double that is not negative reads back as that double, and is the layout of the shortest digits |
| `Grisu.SignedDtoa` | src/njs_dtoa.c:555-582 | a minus sign stands before the text exactly for negative doubles but zero, and the rest reads back as the absolute value |
| `Grisu.SmallestDigits` | src/njs_dtoa.c:42-53 | for the smallest double the digits can only be 5, with the point at -323 |
| `Grisu.PrintSmallest` | src/njs_dtoa.c:555-582 | the text printed for it is "5e-324" |
| `NumberText.LayoutValue` | src/njs_dtoa.c:405-471 | digits, point and exponent as laid out denote the digits scaled by the point, in all five layouts |
| `NumberText.Format` | src/njs_dtoa.c:371-471 | the buffer is rewritten in place to that layout |
| `Wide.MulFull` | src/njs_dtoa_fixed.c:27-49 | a product in two halves is the product, if it fits in 128 bits |
| `Wide.DivModFull` | src/njs_dtoa_fixed.c:87-109 | quotient and rest by a power of two give the number back |
| `FixedDtoa.FixedDtoa` | src/njs_dtoa_fixed.c:357-456 | the digits are the value rounded to the nearest at the asked place exactly when the exponent is at least -128 or the value is below half of that place |
| `FixedDtoa.RoundsToZero` | src/njs_dtoa_fixed.c:262-354 | the rounded value is zero exactly when the value is below half of the last place |
| `FixedDtoa.SmallDouble` | src/njs_dtoa_fixed.c:448-456 | a double with exponent -129 that does not round to zero at 26 places |
| `PoolAllocator.Create` | src/njs_mp.c:145-238 | a pool is made exactly for the accepted sizes if there is memory for it, and is empty |
| `PoolAllocator.Pool.Alloc` | src/njs_mp.c:278-292 | the new block is aligned, lies in free memory apart from all live blocks and is added to them; a failure changes nothing, and there is one exactly when the size is too large or a request made to the system in the call was refused; a free page or a page with a free chunk is used without a request |
| `PoolAllocator.Pool.Align` | src/njs_mp.c:310-335 | the same with an alignment, refused exactly when it is no power of two, and exactly when the block is of size zero and can never be freed |
| `PoolAllocator.Pool.Free` | src/njs_mp.c:609-648 | frees exactly the starts of live blocks; any other pointer is refused with the reason the block it lies in gives, and changes nothing |
| `PoolAllocator.Pool.IsEmpty` | src/njs_mp.c:241-246 | true exactly when no block is live and none of size zero was handed out |
| `PoolAllocator.Run` | src/njs_mp.c:241-246 | after any sequence of calls the pool is empty exactly when nothing is live and no request met was for an aligned block of size zero |
| `PoolAllocator.ZeroForever` | src/njs_mp.c:310-335 | a block of size zero aligned to 32 in a pool aligned to 16, once handed out, keeps the pool from being empty whatever is called before and after |
| `PoolAllocator.HalfPageRefused` | src/njs_mp.c:679-697 | a page of half-page chunks is recorded with size zero, and freeing any of its chunks refused as a free page, exactly when the smallest chunk is as large as a page |
| `PoolState.LiveDisjoint` | src/njs_mp.c:368-543 | any two live blocks have room of their own inside their blocks |
| `PoolQueries.ChunkAligned` | src/njs_mp.c:368-441 | every power of two up to the size of a chunk and the alignment of pages divides its address |
| `SearchTree.InsertAdds` | src/njs_mp.c:597-606 | insertion in the tree of blocks adds one start and keeps all others |
| `SearchTree.DeleteRemoves` | src/njs_mp.c:718-781 | deletion removes one start and keeps all others |
| `SearchTree.Find` | src/njs_mp.c:651-676 | finds the one block that holds an address, if there is one |
| `StableSorting.Sort` | src/njs_array.c:2678-2770 | the result in place is that of insertion as a function, for any comparator a permutation; for one that orders the elements, with NaN for equal elements only, it is sorted and equivalent elements keep their order |
| `StableSorting.SortOfSorts` | src/njs_array.c:2678-2770 | these facts about the function, and order without stability if NaN is for equivalent elements only |
| `StableSorting.StableExactly` | src/njs_array.c:2704-2764 | with a comparator that orders the elements when NaN is read as zero, every array is sorted stably exactly when no two different elements compare as NaN |
| `StableSorting.NaNSwaps` | src/njs_array.c:2717-2726 | two elements that compare as NaN come back swapped |
| `StableSorting.OnlyOne` | src/njs_array.c:2678-2770 | these three facts leave only one possible result |
| `ArrayStorage.JsArray.Execute` | src/njs_array.c:593-1059 | any sequence of operations on the buffer does to the contents what it does on sequences, with the same results; one fails only if it needs memory and gets none |
| `ArrayStorage.JsArray.Expand` | src/njs_array.c:122-177 | room before and after is made without losing a cell, exactly if it is there already, or the new size is below the limit and there is memory |
| `ArrayStorage.JsArray.Splice` | src/njs_array.c:939-1059 | range and count are clamped, removed cells are returned in a new array, new ones stand in their place |
| `ArrayStorage.JsArray.CopyWithin` | src/njs_array.c:2773-2884 | overlapping copies are made as from a saved copy |
| `ArrayStorage.JsArray.SetLength` | src/njs_array.c:330-409 | the length cuts the array or adds holes |
| `ArrayStorage.SpliceUndone` | src/njs_array.c:939-1059 | putting the removed cells back undoes a splice |
| `ArrayStorage.NeverFails` | src/njs_array.c:122-177 | given memory, an operation on an array that stays below two thirds of the limit never fails, in any run |
| `Calendar.YearFromDays` | src/njs_date.c:211-240 | the one year that holds the day, for all days before and after 1970 |
| `Calendar.MakeDay` | src/njs_date.c:117-150 | the day number of year, month and date, months outside 0 to 11 carried into years |
| `Calendar.DestructDate` | src/njs_date.c:264-315 | the only normal fields of a time |
| `Calendar.OneDate` | src/njs_date.c:243-315 | normal fields with the same time are the same fields |
| `Calendar.NextYear` | src/njs_date.c:110-122 | the days of years add up |
| `Calendar.MonthLengths` | src/njs_date.c:130-143 | the length of each month by the rule of the calendar, with the leap years of February |
| `Calendar.Limits` | src/njs_date.c:100-107 | time zero is a Thursday, 1 January 1970, and the last time value Saturday 13 September 275760 |
| `IsoDates.ToIsoString` | src/njs_date.c:1160-1249 | the text of the only normal fields of a time |
| `IsoDates.StringParse` | src/njs_date.c:501-694 | reads every form of the format, from the year alone to milliseconds, and gives exactly the clipped time of the fields read, or the fields where they are local time, or neither |
| `IsoDates.PrintAndParse` | src/njs_date.c:501-694 | parsing a printed time gives the time, for every time value |
| `IsoDates.ReadBack` | src/njs_date.c:501-694 | every printed form has the shape read and the value of its fields |
| `IsoDates.ParseIso` | src/njs_date.c:501-646 | exactly which texts are read as the format, and what they stand for |
| `IsoDates.MissingZone` | src/njs_date.c:602-645 | a date-time without Z is taken as UTC exactly when it has no fraction |
| `IsoDates.FieldsWritten` | src/njs_date.c:576-646 | the fields of the time a text stands for are those written in it, but for the weekday, exactly when month, day, hour, minute and second are in range |
| `IsoDates.FractionPadded` | src/njs_date.c:620-642 | a fraction of one or two digits counts as if it were filled with zeros to three, and digits behind the third count for nothing |
| `IsoDates.ThirteenthMonth` | src/njs_date.c:576-584 | "1970-13-01" is read, and is the time of "1971-01-01" |
| `IsoDates.ZonelessUniversal` | src/njs_date.c:613-615 | "1970-01-01T00:00" is taken as UTC |
| `IsoDates.ZonelessLocal` | src/njs_date.c:644-644 | "1970-01-01T00:00:00.0" is taken as local time |
| `IsoDates.SignCounts` | src/njs_date.c:515-560 | a minus sign counts exactly when the year has six digits |
| `Digests.HashPieces` | src/njs_md5.c:28-109 | the digest of data given in pieces is the digest of all of it, for all three algorithms |
| `Digests.Context.Update` | src/njs_sha2.c:33-61 | data in any amount, over full and part-full buffers, is appended to the message |
| `Digests.Context.Final` | src/njs_sha2.c:64-130 | padding and length in one or two blocks; the result is the digest of the message |
| `Digests.PaddingInjective` | src/njs_sha1.c:61-115 | two messages under 2^61 bytes with the same padded blocks are the same message |
| `Digests.PaddedExactly` | src/njs_sha2.c:64-95 | the padded message is the only text of whole blocks that begins with the message and 0x80, goes on with as few zeros as leave eight bytes, and ends with the number of bits, read in the order of bytes of the algorithm |
| `Digests.OutputWord` | src/njs_sha2.c:97-128 | each word of the result is read back from its four bytes |
| `Hmacs.Hmac.Finish` | src/njs_crypto.c:524-598 | the answer is H(K xor opad, H(K xor ipad, message)) of all updates, once; later calls are errors |
| `Hmacs.Hmac.Update` | src/njs_crypto.c:485-521 | the data is appended to the message, or refused after the digest was taken |
| `Hmacs.KeyBlock` | src/njs_crypto.c:410-482 | a key longer than a block is replaced by its digest, any key is filled with zeros |
| `Hmacs.XorBits` | src/njs_crypto.c:460-466 | a bit of the pads is set where just one of key and constant has it |
| `JsonStrings.EscapedDecoded` | src/njs_json.c:1565-1670 | an escaped string is a string body and decodes to the string |
| `JsonStrings.DecodeIsUtf16` | src/njs_json.c:640-740 | decoding equals UTF-16 with replacement of lone halves exactly when no low half follows an even run of high halves |
| `JsonStrings.DecodedFits` | src/njs_json.c:549-640 | the decoded text fits in the size computed by the first pass |
| `JsonStrings.HexDigits` | src/njs_json.c:803-824 | each of the sixteen digits has its value, in both cases of letters, and no other byte is a digit |
| `JsonStrings.SimpleEscapes` | src/njs_json.c:601-708 | which letters stand behind a backslash, and for what |
| `JsonStrings.EscapeForms` | src/njs_json.c:1593-1630 | which bytes are written as they are, which by a letter, and which by number |
| `Utf8Text.WrittenIsRead` | src/njs_utf8.c:27-56 | every character up to 0x10ffff is read back from its bytes, whatever follows them |
| `Utf8Text.ReadIsWritten` | src/njs_utf8.c:66-150 | whatever is read as a character is what would be written for it |
| `Utf8Text.DecodeUtf8` | src/njs_utf8.c:66-150 | the loop over continuation bytes reads exactly that character, or none |
| `JsonStringCode.ParseString` | src/njs_json.c:549-766 | a string that has an end is read to it and decoded, or memory failed, which it does exactly when a request was refused; nothing else is read, and the place of an error shows why |
| `JsonStringCode.ParseSample` | src/njs_json.c:711-743 | the string `"\u00e9\uD83D\uDE00\udc00"` is read as the bytes C3 A9, F0 9F 98 80, EF BF BD |
| `JsonStringCode.EncodedCharacters` | src/njs_json.c:1637-1651 | any text in UTF-8 is in the characters that the writer of strings steps over one by one |
| `JsonStringCode.AppendString` | src/njs_json.c:1565-1670 | the quoted and escaped string is appended, or a prefix of it when an allocation is refused, and the refusal is given back; the closing quote never needs an allocation |
| `JsonBuffer.Buffer.Append` | src/njs_json.c:1742-1802 | text, room and allocations asked for after appending, as a function of those before and of which allocations are granted |
| `JsonSerializer.Stringify` | src/njs_json.c:1159-1355 | for any granting and refusing of allocations: memory is reported wanting exactly when an allocation not for a key was refused, a text that comes back is that of the value exactly when none for a key was, and too deep is reported for 32 levels and more |
| `JsonSerializer.CutKey` | src/njs_json.c:1237-1237 | with one allocation refused, that for a key which does not fit in the first node, the serializer succeeds with a text that is not that of the value |
| `JsonSerializer.KeyCut` | src/njs_json.c:1237-1237 | in every run for that value the allocation refused is one asked for by the key |
| `JsonSerializer.Step` | src/njs_json.c:1174-1310 | one turn writes one entry, pushes it or closes the container, as a relation between the states before and after |
| `JsonSerializer.TurnTracks` | src/njs_json.c:1174-1310 | a turn keeps what is written, with what the stack still owes and what keys have lost, as long as the whole text, and equal to it while no key has lost anything |
| `JsonParser.Parse` | src/njs_json.c:136-546 | an accepted text is spelled by the grammar and gives its value, with the last of equal keys; a text of the grammar is accepted, unless it is too deep or memory fails, which it does exactly when a request was refused |
| `JsonParser.Context.ParseValue` | src/njs_json.c:292-343 | the same for one value inside the text; an error names a place where the text has what it says |
| `JsonGrammar.LastWins` | src/njs_json.c:410-424 | of equal keys the value written last is the one found |
| `JsonRoundTrip.TextSpells` | src/njs_json.c:1159-1355 | the text of a value spells the value, wherever it stands |
| `JsonRoundTrip.WholeText` | src/njs_json.c:1159-1355 | the text of a value is a text of the grammar for that value |
| `JsonRoundTrip.WriteAndRead` | src/njs_json.c:136-199 | parsing what was written gives the value back, unless an allocation for a key was refused in writing, or any in reading |

## Findings

Places where the source does not do what its documentation, its comments or the language promise; each is a lemma here
with the exact condition.

- src/njs_generator.c:2095-2107 and 1755-1785: a left operand is saved only if it is a plain name and the right operand
  holds an assignment (src/njs_parser.c:2215-2240, tokens from `=` to `&=`).  The result of an assignment, and a name
  before `++` or `--`, are read again after the right operand (`Scripts.OperationExactly`, `Generator.CompileAssignment`,
  `Generator.CompileIncrement`).
- src/njs_lvlhsh.h:59-61: the shifts of the large slab table sum to 34, the walk keeps its position in 32 bits
  (src/njs_lvlhsh.c:798-818), so a walk over a table with seven levels never ends (`LevelHashEach.Calls`,
  `LevelHashSlab.WalkForever`).
- src/njs_mp.c:310-335 and 548-594: an aligned allocation of size zero above the page alignment is a block no address
  lies in; it can never be freed and the pool never becomes empty (`PoolAllocator.Pool.Align`,
  `PoolAllocator.Run`, `PoolAllocator.ZeroForever`).
- src/njs_mp.c:176-221, 418 and 694: with the smallest chunk as large as a page the size recorded for half-page chunks is
  that of a free page, so they cannot be freed (`PoolAllocator.Create`, `PoolAllocator.HalfPageRefused`).
- src/njs_dtoa_fixed.c:448-456: doubles with an exponent below -128 print as zero even when a digit in the asked places
  is due (`FixedDtoa.FixedDtoa`, `FixedDtoa.SmallDouble`).
- src/njs_json.c:640-740: after an even run of high surrogates a low one is not paired with the last of them
  (`JsonStrings.DecodeIsUtf16`).
- src/njs_json.c:1237: the result of writing a key is not looked at, so when an allocation for it is refused the text
  comes back without the rest of the key (`JsonSerializer.Stringify`, `JsonSerializer.CutKey`).  The result of writing a
  closing quote, line 1667, is not looked at either, but seven bytes are always left for it
  (`JsonStringCode.AppendString`).
- src/njs_date.c:602-645: without Z a date-time is UTC if it has no fraction and local time if it has one
  (`IsoDates.MissingZone`); a sign before a four-digit year is read and ignored (`IsoDates.SignCounts`); months, days,
  hours, minutes and seconds out of range are accepted and carried over, where section 15.9.1.15 of ECMA-262 5.1 has no
  such date (`IsoDates.FieldsWritten`, `IsoDates.ThirteenthMonth`).
- src/njs_array.c:2717-2726: a comparator's NaN counts as a positive answer, where section 22.1.3.24.1 of ECMA-262 6.0
  reads it as zero; elements that are equivalent then change places (`StableSorting.StableExactly`,
  `StableSorting.NaNSwaps`).

## Left out

- CodeMeaning.BinaryOk: the saving of a plain name in a temporary is in `Generator.CodeGenerator.GenLeft`, not in this lemma.
- CachedPowers.CachedPowerBin: the product with the logarithm is any real within 10^-9 of the exact one, which covers the machine's rounding.
- Grisu.SignedDtoa: infinities and NaN are handled before it in the source.
- FixedDtoa: doubles of 2^73 and above are excluded; the caller passes only those below 10^21 (src/njs_number.c:619).
- LevelHashEach.Calls: a level that begins past bit 31 of the position would shift a machine word by its width or more, which C leaves undefined; such tables, and hashes above 32 bits, which the source cannot hold, are excluded where the walk does not fit.
- LevelHash.Table: which requests for memory are granted, where blocks lie, the hash function and the comparison of keys are parameters; pointers are numbers and blocks are entries of a map.
- PoolAllocator.Pool: the memory of block headers, the balancing of the red-black tree and the debug build are not modelled.
- StableSorting.Sort: the comparator is a function, and an answer that is no number ends the sort where it stands; the flow of labels and jumps in src/njs_array.c:2678-2770 is written as nested loops, because Dafny has no goto.
- Digests.Context: the compression functions are a parameter of the algorithm, with the length of their state.
- JsonParser.Parse: numbers are read by a parameter, which in the round trip must read what the printer wrote, and how often the hash of an object asks for memory when a key is put into it is another; strings and arrays too long for their 32-bit sizes and the reviver are not modelled.
- JsonParser.Context.ParseValue: which of several errors is given for a text that spells no value is stated only as far as each names something the text has at its place.
- JsonSerializer.Stringify: allocations are numbered in the order asked for, one for the keys of each object; numbers are printed by a parameter; replacer, toJSON and indentation are not modelled.
- IsoDates.StringParse: the other two date formats (src/njs_date.c:697-850) and the offset of the local time zone are not modelled.
- Calendar.MakeDate: fields are unbounded integers; overflow of 64-bit fields is not modelled.
- Syntax.Execute: a label on a statement other than a loop, switch or block labels nothing in njs, unlike in section 12.12 of ECMA-262; the model follows the code.
- Expressions on properties, calls, functions, closures, try, for-in, typeof, delete, regular expressions and templates, and the swapped operands of `in`, are not in the generator's tree.
- The regular expression, string, number and module parts of the engine, the precision and exponential formats of numbers and the lexer are not modelled.
