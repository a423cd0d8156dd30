# pg_jitter: fast paths and the simple paths they replace

pg_jitter replaces evaluation paths of PostgreSQL with faster ones. This project models seven of
them in Dafny and proves what each fast form owes to the simple form it stands for. Where the code
does not meet its purpose on all inputs, the code is modelled as it is and the exact condition is
proved.

| part | modules | main results |
|---|---|---|
| LIKE, compiled to segments | LikePattern, LikeWords, LikeSegments, LikeMatch, LikeExact, LikeBytes | the matcher never misses a match, for every pattern; it is LIKE on every text if and only if a guard on the pattern is false |
| LIKE, translated to a regular expression | LikeRegex, LikeBytes | the expression accepts exactly what LIKE accepts; the buffer always suffices; the special bytes of both languages by their numbers |
| Tuple deform | Tuples, TupleForm, DeformUnrolled, DeformSparse, DeformDispatch | a stored row is read back, column by column; the unrolled code and the bitmap walk leave what the left-to-right loop leaves; the dispatch loop does if and only if every unstored column has a default and no batch runs over the last stored column |
| CASE as binary search | CaseOrder, CaseSteps, CaseDetect, CaseCollation, CaseOperands, CaseExact, CaseRewrite, CaseExample, CaseRange, CaseRangePass, CaseRangeSearch, CaseRangeRuns, CaseRangeExact, CaseRangeExample, CaseEmit, CaseEmitExample, CaseNumbers, CaseLogic, CaseComplete, CaseRangeComplete | running the steps of a reported CASE and searching give the same result, for `<`, `<=`, `>`, `>=`, `=` and ranges, if and only if conditions on the reported program hold that the detector does not check; which CASEs are reported, none overlooked, and which of them are replaced |
| Numerics | Numerics, NumericForm, NumericCompare, NumericAccum, NumericState | a stored numeric is read back; comparison is the order of the values except beside zero; accumulators conserve the exact sum over every run and never overflow |
| IN-lists and array operators | InListProbing, InList, InListText, ScalarArray, ArrayMeaning | probes end and answer membership for any hash function; the array loop is three-valued ANY and ALL, element by element |
| Shared code | SharedArena, SharedCode, SharedProgress, RelocateWords, Relocate, RelocateForm | safety of the shared arena in every interleaving, and that what fits is stored and found; which calls the ARM64 relocation moves, and by how much |
| Pattern cache | CacheStore, PatternCache, CacheRuns, CacheOrder | reference counts, freeing once and unique keys in every state of every run; what was handed out lives until its context is released; what is given up is what was longest unused |

`Wrappers` holds an option type and one sequence law that all modules share. `dafny verify
dfyconfig.toml` checks everything.

## Where the code departs from its purpose

- LIKE segments: after a floating segment is found, the length left is taken from the whole text
  (line 831 of `src/pg_jitter_simd.c`), so the end-anchored segment is no longer set aside. A last
  floating segment may then stand on top of it: `%a%c%c` accepts `xac` (`SharedByteExample`).
  `LosesEnd` is the exact guard.
- Dispatch loop: null flags are cleared after missing columns were filled in, so a missing column
  without a default is no longer null. A batch takes all its columns without a look at how many the
  tuple stores; where columns were added NOT NULL with a default, it reads behind an old tuple and
  replaces their defaults (`OverrunExample`). `DispatchedExactlyWhen` has both, with the guard
  `Overruns`. A varlena column of alignment 8 is aligned to 4 (`HandlerExactlyWhen`).
- CASE, operands: both passes read the threshold from the second argument of a comparison and do not
  ask which argument the load writes. Where the load is the second one, the word read is the zero of
  a new frame: in `y < x, x < 20, x < 30, x < 40` the search takes the first threshold to be 0
  (`SwappedExample`; `SwappedEqualExample` has `4 = x`). `OperandsOk` is the exact guard for integers
  and floats (`RankedExactlyWhen`): down the ranges that were read and the ranges that are meant, each
  value must come to the same result. It always holds where every comparison takes its load first
  (`LoadsFirstOk`); where one does not, the results may still happen to agree, and the guard says
  when. For a generic type the word is a null pointer, and the model stops where it is compared (`Stuck`).
- CASE, collations: the first pass compares the collation of no branch but the first
  (`MixedCollationExample`). `Harmless` is the exact guard for generic types: from the first branch of
  another collation on, every branch that can decide yields the ELSE value (`GenericExactlyWhen`).
- Range CASE: the second pass looks at the first step of a THEN and of the ELSE only
  (`LongerThenExample`), does not check that ranges go upwards (`EmptyRangeExample`), reads the second
  argument as above (`SwappedRangeExample`), and takes a range that stands behind other conjuncts of
  its WHEN (`MidWhenExample`): it forgets an earlier null, and an earlier false jumps to a step whose
  label stands behind the rewritten CASE, so that the CASE is left with false as its value. `RangeOk`
  is the exact guard, down the search tree (`RewrittenRangeExactlyWhen`); for ordinary ranges that are
  not empty it says that every THEN and the ELSE are their constant and no more
  (`LongThenExactlyWhen`).
- Both passes: the list holds the patterns of the first pass and then those of the second, and the
  emitter takes them in list order. It replaces all of the second pass or none, according to whether
  the first of them stands behind the last of the first pass (`SecondReachedExactlyWhen`); a range
  CASE in front of a simple one is reported and never replaced (`RangeInFrontExample`).
- Numeric comparison: zero has weight 0 and is called larger than any positive number below one
  (`ComparesExactlyWhen`).
- Numeric accumulator: a zero on the fast path does not raise the display scale of the sum
  (`DisplayScaleExactlyWhen`).
- ARM64 relocation: the test for BLR and BR leaves out the bits that hold the register and looks for
  the register in bits that are always zero, so only calls through register 0 are moved
  (`CallMovedExactlyWhen`).

## Model

| member | source | states |
|---|---|---|
| LikePattern.DecodeKeepsMeaning | src/pg_jitter_simd.c:523-547 | a text matches the pattern bytes, read recursively with backslash as escape, exactly when it matches the decoded tokens |
| LikePattern.DecodePattern | src/pg_jitter_simd.c:523-547 | the decoding loop fails exactly on a dangling escape and otherwise yields the tokens |
| LikeWords.ShapeKeepsMeaning | src/pg_jitter_simd.c:549-588 | matching tokens is the same as matching a shape: pinned first word, pinned last word, floating words one behind the other between them |
| LikeWords.WordsAreProper | src/pg_jitter_simd.c:570-588 | segments are never empty and hold no wildcard for sequences |
| LikeSegments.CountSegments | src/pg_jitter_simd.c:564-588 | the first pass counts the segments and the literal bytes and sees every `_` |
| LikeSegments.CountSegment | src/pg_jitter_simd.c:571-587 | one segment end in the first pass: the counts extend over the next word or stay |
| LikeSegments.BuildSegment | src/pg_jitter_simd.c:652-691 | the pieces of a segment are exactly its literals at their offsets, the recorded longest piece is a longest one; fails exactly with too many runs |
| LikeSegments.BuildSegments | src/pg_jitter_simd.c:644-696 | the second pass builds every segment in order and the minimal length; fails exactly when one segment has too many pieces |
| LikeSegments.Compile | src/pg_jitter_simd.c:500-701 | declines, defers or accepts exactly as stated by predicates on the pattern; what is accepted represents the shape of the pattern |
| LikeMatch.ScanLeftmost | src/pg_jitter_simd.c:791-836 | taking the leftmost place of a word decides whether the rest can follow |
| LikeMatch.FindSegment | src/pg_jitter_simd.c:782-836 | the anchor scan finds the leftmost place of the whole segment in the window, or shows there is none |
| LikeMatch.MatchFloating | src/pg_jitter_simd.c:767-840 | the floating loop succeeds exactly when the words stand one behind the other within the limit the code really uses |
| LikeMatch.MatchCompiled | src/pg_jitter_simd.c:703-855 | the matcher returns 1 exactly when the shape accepts the text by the rules of the code |
| LikeExact.MatcherIsComplete | src/pg_jitter_simd.c:703-855 | whatever matches the shape is accepted, for any number of floating segments |
| LikeExact.MatcherIsSound | src/pg_jitter_simd.c:703-855 | when the guard is false, whatever is accepted matches |
| LikeExact.MatcherIsWrong | src/pg_jitter_simd.c:829-834 | when the guard holds, a text is built that is accepted and does not match; it holds no byte 0 when the pattern holds none |
| LikeExact.MatcherIsLikeExactlyWhen | src/pg_jitter_simd.c:500-855 | for every pattern: the matcher is LIKE on all texts if and only if no literal floating segment is followed by a last one that can overlap the end segment; for a pattern without byte 0 the same holds of the texts without byte 0, which are all that text values can be |
| LikeExact.MatcherNeverMisses | src/pg_jitter_simd.c:500-855 | for every pattern and text: LIKE implies acceptance |
| LikeExact.LikeByWords | src/pg_jitter_simd.c:500-855 | compiling and matching together never miss, and are LIKE where the guard is false |
| LikeExact.SharedByteExample | src/pg_jitter_simd.c:829-834 | the pattern `%a%c%c` and the text `xac`: the matcher accepts, LIKE rejects |
| LikeBytes.LikeLaws | src/pg_jitter_simd.c:523-547 | LIKE by its laws, in byte numbers: 37 stands for any stretch, 95 for one byte, 92 makes the next byte literal, every other byte is itself |
| LikeBytes.DeclinesExactlyWhen | src/pg_jitter_simd.c:590-691 | a pattern is declined exactly for `_` in UTF-8, a single needle of five bytes or more, and else more than 16 segments, 1073739639 literal bytes or 8 literal runs in a segment |
| LikeBytes.ShortIsRejected | src/pg_jitter_simd.c:703-720 | a text shorter than all segments together is never accepted |
| LikeBytes.MetaBytes | src/pg_jitter_pcre2.c:375-379 | exactly the fourteen bytes `. + * ? [ ] ( ) { } ^ $ \` and the bar are escaped |
| LikeBytes.ReadingLaws | src/pg_jitter_pcre2.c:331-392 | how an expression is read from its first byte, in byte numbers; an unescaped special byte is never read as itself |
| LikeBytes.WholeExpression | src/pg_jitter_pcre2.c:342-392 | the expression is `^` unless the pattern starts with `%`, the tokens between the outer `%`, and `\z` unless it ends with `%` |
| LikeBytes.RegexExamples | src/pg_jitter_pcre2.c:357-392 | the bytes of the expressions for `a+b`, `a%b_` and `\%` |
| LikeRegex.ParseRegex | src/pg_jitter_pcre2.c:331-389 | the written bytes read back as one atom for each token, escaped where needed, with the anchors |
| LikeRegex.RegexMeaning | src/pg_jitter_pcre2.c:331-389 | searching with these atoms is matching the tokens, also for all-`%` and empty patterns |
| LikeRegex.StripPercents | src/pg_jitter_pcre2.c:342-355 | all leading and trailing `%` tokens are dropped, none else |
| LikeRegex.WriteMiddle | src/pg_jitter_pcre2.c:360-382 | the loop appends the bytes of each token and stays within two bytes a token |
| LikeRegex.WriteRegex | src/pg_jitter_pcre2.c:357-392 | the whole expression and its end mark fit the buffer of 2 * length + 4 bytes |
| LikeRegex.LikeToRegex | src/pg_jitter_pcre2.c:246-394 | fails exactly on a dangling escape or a pattern of more than 134217727 bytes; else the expression is the specified one and finds a match in a text exactly when LIKE matches it |
| Tuples.DeformedIsUnique | src/pg_jitter_deform_jit.c:1024-1040 | cell values, null flags and offset determine the result of the left-to-right loop |
| Tuples.LoopDeforms | src/pg_jitter_deform_jit.c:1024-1040 | the left-to-right loop leaves the stored value or null of every column in range and touches nothing else |
| Tuples.LoopsCompose | src/pg_jitter_deform_jit.c:1024-1040 | deforming in two stretches is deforming in one |
| Tuples.DeformInTwoSteps | src/pg_jitter_deform_jit.c:1002-1022 | deforming to n1 and resuming to n2 is deforming straight to n2, missing columns included |
| TupleForm.LoadWritten | src/pg_jitter_deform_jit.c:1036-1036 | loading the two's-complement bytes of a number of 1, 2, 4 or 8 bytes gives the number |
| TupleForm.AlignIsPadding | src/pg_jitter_deform_jit.c:1028-1034 | aligning an offset adds what is lacking to a multiple of 1, 2, 4 or 8 |
| TupleForm.PresentIs | src/pg_jitter_deform_jit.c:1024-1027 | a column is present exactly when its bit, counted from the lowest of each byte, is set |
| TupleForm.DeformReadsBack | src/pg_jitter_deform_jit.c:1002-1040 | deforming a stored row gives the row back: each number, the bytes behind each pointer, each null, and behind the row the default of the column |
| TupleForm.StoredIsWellFormed | src/pg_jitter_deform_jit.c:1024-1040 | stored rows that have the NOT NULL columns are the tuples the fast forms are right on |
| TupleForm.NumberExample | src/pg_jitter_deform_jit.c:1036-1036 | the bytes 00 01 00 00 are 256, FF FF FF FF are -1 |
| DeformUnrolled.ElidedAlign | src/pg_jitter_deform_jit.c:274-520 | where the analysis drops alignment code the offset is aligned already |
| DeformUnrolled.ExactAtValue | src/pg_jitter_deform_jit.c:274-520 | while the alignment is guaranteed, the constant offset is the real one |
| DeformUnrolled.BehindDescribes | src/pg_jitter_deform_jit.c:446-472 | tracking keeps its claim: exact means equal, otherwise a non-negative alignment divides the offset |
| DeformUnrolled.KnownDescribes | src/pg_jitter_deform_jit.c:274-520 | in front of every column the static facts describe the offset of every tuple |
| DeformUnrolled.BlockDeforms | src/pg_jitter_deform_jit.c:274-520 | the block of a column does what the reference does with it, and leaves for absent columns |
| DeformUnrolled.CodeDeforms | src/pg_jitter_deform_jit.c:100-575 | the emitted code yields the values, null flags and offset of the reference from every legal resume point |
| DeformUnrolled.DeformedIsResumable | src/pg_jitter_deform_jit.c:254-271 | the slot it leaves is a legal resume point again |
| DeformUnrolled.EmitBlock | src/pg_jitter_deform_jit.c:275-519 | one pass of the emission loop emits the block of the column and moves the two tracking variables as the analysis says |
| DeformUnrolled.Compile | src/pg_jitter_deform_jit.c:100-575 | compilation declines exactly for an empty or too long list or an odd by-value width, and else its code is the reference on every tuple |
| DeformSparse.ClearsLowest | src/pg_jitter_deform_jit.c:1148-1170 | clearing with `bm & (bm - 1)` removes the lowest set bit and no other |
| DeformSparse.NextBit | src/pg_jitter_deform_jit.c:1148-1170 | the lowest bit left is the next present column, and no present column is passed over |
| DeformSparse.VisitBits | src/pg_jitter_deform_jit.c:1147-1170 | the visits fill exactly the present columns of a byte, in order, with the offset threaded through |
| DeformSparse.DeformGroup | src/pg_jitter_deform_jit.c:1119-1171 | zeroing a group and visiting its bits is the reference over eight columns |
| DeformSparse.DeformBits | src/pg_jitter_deform_jit.c:1064-1114 | the partial first and last byte are the reference over their columns |
| DeformSparse.DeformByBytes | src/pg_jitter_deform_jit.c:1058-1172 | partial byte, full bytes and partial byte together cover the range once |
| DeformSparse.SparseDispatch | src/pg_jitter_deform_jit.c:982-1183 | equals the reference for every bitmap, start column and limit |
| DeformSparse.TableSlot.PutPresent | src/pg_jitter_deform_jit.c:1028-1038 | align, fetch and advance store the value and move the offset as the reference column does |
| DeformDispatch.FindBatches | src/pg_jitter_deform_jit.c:2082-2140 | every position of a run of at least four NOT NULL int4 or int8 columns gets the columns left in its run, at most 255, if at least four are left; every other position gets 0 |
| DeformDispatch.RunIsUniform | src/pg_jitter_deform_jit.c:2100-2135 | the columns of a batch have one handler and are NOT NULL |
| DeformDispatch.BatchInRun | src/pg_jitter_deform_jit.c:2505-2575 | every column of a batch has its width, and those the tuple stores are present |
| DeformDispatch.BatchOfRun | src/pg_jitter_deform_jit.c:2082-2140 | the rest of a run of NOT NULL columns of width 4 or 8 is one batch when it is at least 4 long, of 255 at most |
| DeformDispatch.AllNotNull | src/pg_jitter_simd.c:1074-1104 | the bitmap pre-check says yes exactly when every column is present |
| DeformDispatch.HandlerExactlyWhen | src/pg_jitter_deform_jit.c:2452-2740 | a handler is the reference column on every tuple and for every slot in front of it if and only if its built-in alignment is that of the column: its width for a number, 4 for a varlena, 1 for a C string |
| DeformDispatch.RunBatch | src/pg_jitter_deform_jit.c:2512-2575 | one alignment and consecutive loads, stored or not, leave the slot of the batch |
| DeformDispatch.BatchIsDeform | src/pg_jitter_deform_jit.c:2512-2575 | over stored columns a batch is the reference |
| DeformDispatch.SkipGroup | src/pg_jitter_deform_jit.c:2258-2346 | the skip of eight null columns is the reference over them |
| DeformDispatch.TakePresent | src/pg_jitter_deform_jit.c:2415-2740 | a present column alone or with its batch, whatever the limit |
| DeformDispatch.Turn | src/pg_jitter_deform_jit.c:2233-2740 | one turn of the loop, null skips included, leaves the rest of the loop to do |
| DeformDispatch.DispatchLoop | src/pg_jitter_deform_jit.c:2178-2740 | on every well-formed tuple the loop computes its specification: cleared null flags, then columns and batches with no limit on a batch |
| DeformDispatch.FromExactlyWhen | src/pg_jitter_deform_jit.c:2505-2575 | from any column on, the loop is the reference if no batch overruns the stored columns, and else leaves an offset behind that of the reference |
| DeformDispatch.OverrunCutsRun | src/pg_jitter_deform_jit.c:2082-2140 | a batch overruns only where the last stored and the first unstored column are in one NOT NULL run |
| DeformDispatch.DispatchedExactlyWhen | src/pg_jitter_deform_jit.c:2178-2740 | for every well-formed tuple and slot: the loop leaves what the reference leaves if and only if every unstored column has a default and no batch started in front of the last stored column ends behind it |
| DeformDispatch.DispatchedWhenStored | src/pg_jitter_deform_jit.c:2178-2740 | with every column stored, the loop is the reference |
| DeformDispatch.OverrunExample | src/pg_jitter_deform_jit.c:2505-2575 | three columns with default 7 behind a tuple of two: the batch replaces the defaults and leaves the offset 12 bytes too far |
| CaseOrder.HoldsStays | src/pg_jitter_common.c:4230-4335 | along monotone thresholds a comparison that holds goes on holding |
| CaseOrder.SearchFirst | src/pg_jitter_common.c:4899-5053 | the search finds the result of the first threshold the comparison holds for, or the default |
| CaseOrder.SearchEqual | src/pg_jitter_common.c:5057-5093 | the equality search finds an equal threshold in ascending ones, or shows there is none |
| CaseOrder.SortSorts | src/pg_jitter_common.c:4336-4488 | sorting keeps the pairs and puts the thresholds in ascending order |
| CaseOrder.DistinctNeighbours | src/pg_jitter_common.c:4336-4488 | no equal neighbours after sorting means no equal thresholds at all |
| CaseOrder.SortedSearchIsFirstMatch | src/pg_jitter_common.c:4336-4488 | with distinct thresholds the sorted search returns the result of the first match in source order |
| CaseNumbers.KeyIsNumber | src/pg_jitter_common.c:4899-5093 | a datum is read as the int2, int4, int8 or oid it holds, whatever its upper bits are |
| CaseNumbers.HoldsIsOrder | src/pg_jitter_common.c:4899-5093 | on integers the comparison functions are `=`, `<`, `<=`, `>` and `>=` of the numbers |
| CaseNumbers.HoldsMeans | src/pg_jitter_common.c:4899-5093 | on any total preorder they are its equality, strict and weak order |
| CaseNumbers.FirstMatchIsNumeric | src/pg_jitter_common.c:4899-5093 | over integers the first match is the first threshold for which the numbers compare |
| CaseNumbers.NegativeExample | src/pg_jitter_common.c:4938-4959 | among int8 thresholds 10, 20, 30, 40 the value -5 takes the first branch of `<` |
| CaseSteps.Exec | src/pg_jitter_common.c:1650-1760 | every step of a forward program moves forward |
| CaseSteps.BranchTest | src/pg_jitter_common.c:1650-1760 | load, compare and jump of a branch lead to its result or to the next branch, whichever argument the load is, and whatever cell the first branch compares it with |
| CaseSteps.ChainRuns | src/pg_jitter_common.c:1650-1760 | running a chain from any branch ends behind the CASE with the result of the first branch that applies, or the ELSE value |
| CaseSteps.OneCollationValue | src/pg_jitter_common.c:1650-1760 | with one collation and the load first in every comparison that is a first-match search over the thresholds |
| CaseDetect.CheckedIsMonotone | src/pg_jitter_common.c:4105-4335 | the neighbour checks make the thresholds monotone under the total order of their type |
| CaseDetect.SearchOrderIsTotal | src/pg_jitter_common.c:5307-5378 | sort and search use one total preorder, and where it is the byte order equality is still that of the type |
| CaseDetect.FoundIsDetected | src/pg_jitter_common.c:3913-4488 | what a look at a step reports is a chain with the recorded thresholds, results, end and default, monotone or sorted |
| CaseDetect.FirstPassIsSound | src/pg_jitter_common.c:3913-4488 | every pattern of the first pass is one, found where it starts, none overlap, and there are no more than the limit |
| CaseComplete.FoundExactlyWhen | src/pg_jitter_common.c:3913-4488 | a look at a step reports a pattern if and only if at least four branches and an ELSE stand there, the comparison is known and the thresholds are in strict order, or unequal, pair by pair |
| CaseComplete.SkipsBranchesOnly | src/pg_jitter_common.c:3975-4020 | a look that reports nothing goes on by one step or behind the branches it has looked at |
| CaseComplete.PassIsComplete | src/pg_jitter_common.c:3905-4494 | a CASE that can be searched is reported, unless the list is full, it lies inside a reported CASE or among refused branches, or a null pointer was met |
| CaseRewrite.DetectCases | src/pg_jitter_common.c:3905-4494 | the detection loop reports exactly the first pass |
| CaseRewrite.RunHelper | src/pg_jitter_common.c:5384-5436 | the selected helper returns the value of the chain for every value that is not null |
| CaseCollation.SearchExactlyWhen | src/pg_jitter_common.c:3994-4042 | over all worlds that report the branches, in which every type has its less-than function, and all values: the search yields what the branches yield if and only if the chain is harmless |
| CaseCollation.HarmlessIsRight | src/pg_jitter_common.c:3994-4042 | a harmless chain is searched right in every world that reports it |
| CaseCollation.HarmfulDiffers | src/pg_jitter_common.c:3994-4042 | any other chain has such a world that reports it and a value for which the two differ |
| CaseOperands.SplitOkIs | src/pg_jitter_common.c:4105-4335 | taking values apart by the ranges that were read and then by the real ones decides whether every value comes to the same result |
| CaseOperands.OperandsExactlyWhen | src/pg_jitter_common.c:4105-4335 | for integers and floats, every tested value and every value of another compared cell: steps and search yield the same if and only if `OperandsOk` |
| CaseOperands.LoadsFirstOk | src/pg_jitter_common.c:4025-4042 | with the load as first argument of every comparison the condition holds |
| CaseExact.RankedExactlyWhen | src/pg_jitter_common.c:3913-4488 | for integers and floats and all cells: the rewritten CASE leaves the result of its steps if and only if `OperandsOk` |
| CaseExact.GenericExactlyWhen | src/pg_jitter_common.c:3913-4488 | for generic types, over all worlds that report the CASE and all cells: the rewritten CASE leaves the result of its steps if and only if the chain is harmless (a threshold that is no constant is never reported) |
| CaseExact.OneCollationHarmless | src/pg_jitter_common.c:3913-4488 | with one collation every chain is harmless |
| CaseExact.RunRewritten | src/pg_jitter_sljit.c:3415-3552 | for every reported CASE: same next step, the value of the search in the cell of the ELSE constant, and under the condition the result of running every step |
| CaseExample.MixedCollationExample | src/pg_jitter_common.c:3994-4042 | a program with two collations is reported; for 5 the search yields 99, the steps 13 |
| CaseExample.SwappedExample | src/pg_jitter_common.c:4025-4042 | `y < x`, `x < 20`, `x < 30`, `x < 40` is reported; for y = 0 and x = 5 the search yields the second result, the steps the first |
| CaseExample.SwappedEqualExample | src/pg_jitter_common.c:4025-4042 | `x = 1`, `x = 2`, `x = 3`, `4 = x` is reported; for 4 the search yields the ELSE value, the steps the last branch |
| CaseRange.MoreStartsAt | src/pg_jitter_common.c:4600-4645 | the collected branches follow one another and have the shape of the first |
| CaseRange.ReportedIsPattern | src/pg_jitter_common.c:4650-4800 | a reported range pattern has contiguous bounds, and every stored upper bound fits its word: the added one never overflows |
| CaseRangeComplete.BranchEndsExactlyWhen | src/pg_jitter_common.c:4587-4640 | a branch ends with the first jump to the end among the twenty steps behind its WHEN |
| CaseRangeComplete.RepresentableMeans | src/pg_jitter_common.c:4660-4700 | an inclusive bound is accepted exactly when one more than it fits the stored word |
| CaseRangeComplete.RangeFoundExactlyWhen | src/pg_jitter_common.c:4535-4830 | a look at a step reports a range pattern if and only if at least four branches of one shape, 128 at most, with meeting ranges and constants stand there |
| CaseRangeComplete.RangeSkips | src/pg_jitter_common.c:4535-4830 | a look that reports nothing goes on by one step, behind the branches it has looked at, or at the end of the CASE |
| CaseRangeComplete.RangePassIsComplete | src/pg_jitter_common.c:4529-4830 | a range CASE is reported, unless the list is full, it lies inside a reported CASE or behind the first of refused branches |
| CaseLogic.WhenIsAnd | src/pg_jitter_common.c:1683-1760 | at the jump of a WHEN the result cell holds the three-valued AND of the two comparisons |
| CaseRangeSearch.SearchRange | src/pg_jitter_common.c:4899-4920 | lower-end check and binary search over the upper bounds, whatever these are |
| CaseRangeSearch.SearchFindsFirst | src/pg_jitter_common.c:4899-4920 | contiguous ranges, none turned round: the search ends at the first range that holds the value |
| CaseRangeSearch.RangesOkExactlyWhen | src/pg_jitter_common.c:4899-4920 | for any bounds: every value gets from the search what the branch it belongs to yields if and only if the intervals that reach the leaves of the search tree allow it |
| CaseRangeRuns.WhenRuns | src/pg_jitter_common.c:1683-1760 | the seven steps of a WHEN, the last two conjuncts of a longer one included, lead to its THEN exactly when both comparisons hold of their arguments and no earlier conjunct was null, and else to the next branch |
| CaseRangeRuns.RangesRun | src/pg_jitter_common.c:1650-1760 | running the branches leads to the THEN of the first that applies, or to the ELSE |
| CaseRangeRuns.TakenRuns | src/pg_jitter_common.c:1650-1760 | the run ends with the constant of that part, or with what its last step yields |
| CaseRangeExact.InsideIs | src/pg_jitter_common.c:1683-1760 | a branch applies exactly to the values of an interval, the larger or the smaller one where other cells have a say |
| CaseRangeExact.RunRewrittenRange | src/pg_jitter_sljit.c:3415-3552 | one load and one search leave the specified cells, and where the condition holds the result and the place of running every step |
| CaseRangeExact.RewrittenRangeExactlyWhen | src/pg_jitter_common.c:4535-4830 | for all cells and values and whatever further steps yield: coming from in front or from an earlier conjunct, the rewritten range CASE leaves the result of the steps if and only if `RangeOk` |
| CaseRangeExact.ConstantRangesOk | src/pg_jitter_common.c:4535-4830 | constant parts and ordinary ranges that are not turned round meet the condition |
| CaseRangeExact.LongThenExactlyWhen | src/pg_jitter_common.c:4783-4796 | for ordinary ranges, none empty, the condition is: every THEN and the ELSE are their constant and no more |
| CaseRangeExample.EmptyRangeExample | src/pg_jitter_common.c:4650-4690 | a reported program with bounds 10, 5, 20, 30, 40: for 7 the search returns the ELSE value, the steps the second branch |
| CaseRangeExample.LongerThenExample | src/pg_jitter_common.c:4783-4796 | a reported program with a THEN of two steps: for 35 the search returns the constant, the steps what the second step yields |
| CaseRangeExample.MidWhenExample | src/pg_jitter_common.c:4546-4556 | a reported program whose first range stands behind other conjuncts: for 5 the search returns 10; after an earlier null the steps return 99, and so they do after an earlier false, where the emitted code leaves false |
| CaseRangeExample.SwappedRangeExample | src/pg_jitter_common.c:4576-4578 | a reported program with `5 >= x AND x < 10`: for 7 the search returns 10, the steps 99 |
| CaseRangePass.SecondPassIsSound | src/pg_jitter_common.c:4535-4830 | everything the pass finds is a reported pattern where it says, and patterns do not overlap |
| CaseRangePass.DetectRanges | src/pg_jitter_common.c:4529-4830 | the second loop reports exactly the second pass; its patterns are real and do not overlap |
| CaseEmit.DetectSites | src/pg_jitter_common.c:3905-4835 | the list is that of the first pass and then that of the second, under one limit |
| CaseEmit.EmitSites | src/pg_jitter_sljit.c:3402-3552 | the loop replaces the specified number of patterns |
| CaseEmit.ReachedExactlyWhen | src/pg_jitter_sljit.c:3415-3544 | the emitter comes to the first k patterns of a list if and only if they are in step order |
| CaseEmit.SecondReachedExactlyWhen | src/pg_jitter_sljit.c:3415-3544 | all patterns of the first pass are replaced; those of the second all are if the first of them stands behind the last of the first pass, else none is |
| CaseEmit.RangeInFrontIsLost | src/pg_jitter_sljit.c:3415-3544 | a range CASE at the beginning is never replaced when the first pass finds anything and leaves room in the list |
| CaseEmitExample.RangeInFrontExample | src/pg_jitter_sljit.c:3415-3544 | a program of a range CASE and a simple CASE: two patterns are listed, the simple one first, and one is replaced |
| Numerics.WeightDecides | src/pg_jit_funcs.c:1349-1355 | among non-zero numerics the larger weight is the larger magnitude |
| NumericForm.ParseWritten | src/pg_jit_funcs.c:1301-1330 | a short header built from sign, display scale and weight, with digits behind it, parses to exactly that sign, scale, weight and digits |
| NumericForm.ParsesExactlyWhen | src/pg_jit_funcs.c:1301-1330 | what parses are the headers from 0x8000 to 0xBFFF |
| NumericForm.OneAndTwo | src/pg_jit_funcs.c:1301-1377 | the stored 1 and 2 parse to 1 and 2, and 1 compares below 2 |
| NumericForm.DigitsAreDecimal | src/pg_jit_funcs.c:1349-1373 | three digits around the point are worth 10000 a + b + c / 10000, with the sign |
| NumericForm.RoomMeans | src/pg_jit_funcs.c:1749-1760 | there is room exactly with fewer than 9999 additions since the last carry and a position for the first and the last digit |
| NumericForm.TakesMeans | src/pg_jit_funcs.c:1729-1890 | exactly which inputs the fast paths take |
| NumericCompare.DigitsAreOrdered | src/pg_jit_funcs.c:1357-1373 | the digit loops return the sign of the difference of the fractions, trailing zeros ignored |
| NumericCompare.ComparesExactlyWhen | src/pg_jit_funcs.c:1333-1377 | the comparison is the sign of the difference of the values if and only if it does not put zero beside a positive number below one |
| NumericCompare.NonZeroOrder | src/pg_jit_funcs.c:1333-1377 | on non-zero numerics it is a total order, equal exactly on equal values |
| NumericCompare.CompareDatums | src/pg_jit_funcs.c:1301-1377 | falls back exactly when an operand does not parse, and otherwise compares as stated |
| NumericCompare.ZeroExample | src/pg_jit_funcs.c:1349-1355 | zero is called larger than one half |
| NumericAccum.AddAddsValue | src/pg_jit_funcs.c:1749-1770 | adding digits column by column adds the signed value |
| NumericAccum.AddKeepsGood | src/pg_jit_funcs.c:1749-1770 | each addition raises the bound of a column by one digit and no more |
| NumericAccum.ColumnsFit | src/pg_jit_funcs.c:1749-1751 | with fewer than 10000 additions since the last carry every column is at most 9999 * 10000, inside int32 |
| NumericAccum.BuffersSuffice | src/pg_jit_funcs.c:1815-1855 | five digits hold every int64, ten every square |
| NumericAccum.IntDigitsValue | src/pg_jit_funcs.c:1815-1833 | the digits of an integer are worth it |
| NumericAccum.AddIntAdds | src/pg_jit_funcs.c:1798-1903 | the integer path adds v to the sum and v * v to the squares, exactly |
| NumericAccum.RunConserves | src/pg_jit_funcs.c:1693-1903 | after every run of fast inputs, server inputs and carries the sums are exact and every input is counted |
| NumericAccum.RunKeepsGood | src/pg_jit_funcs.c:1693-1903 | in every state of a run all columns stay inside int32 |
| NumericAccum.RunTracksScale | src/pg_jit_funcs.c:1773-1781 | maxScale and maxScaleCount are the largest scale and its multiplicity after every run |
| NumericAccum.DisplayScaleExactlyWhen | src/pg_jit_funcs.c:1729-1740 | an input keeps the display scale equal to the largest scale if and only if it is not a fast zero with a new largest scale |
| NumericAccum.RunShowsScale | src/pg_jit_funcs.c:1729-1771 | after every run the display scale is the largest one among the inputs that are not fast zeros |
| NumericState.SumAccum.Add | src/pg_jit_funcs.c:1762-1768 | the in-place loop adds the digits to one row and counts the addition; no column overflows |
| NumericState.ToDigits | src/pg_jit_funcs.c:1815-1829 | dividing off digits and reversing the buffer in place yields the digits |
| NumericState.AggState.AddNumericFast | src/pg_jit_funcs.c:1693-1783 | takes exactly the inputs it has room for and adds them; a refusal leaves the state untouched |
| NumericState.AggState.AddIntFast | src/pg_jit_funcs.c:1798-1903 | changes both accumulators or neither |
| InListProbing.InsertKeepsReachable | src/pg_jitter_simd.c:949-957 | filling the first empty slot on a key's path keeps the way to every key taken |
| InListProbing.ProbeEndsAtEmpty | src/pg_jitter_simd.c:962-975 | a key is not in the table once its probe meets an empty slot |
| InListProbing.TableSize | src/pg_jitter_simd.c:924-946 | the size is the first power of two from 16 on that is at least twice the number of values; the error cases are exactly the stated ones |
| InListProbing.LeastSize | src/pg_jitter_simd.c:924-946 | the size is the least of 16, 32, 64, ... that is no less than asked for |
| InList.BuildInt4 | src/pg_jitter_simd.c:917-960 | the table holds exactly the listed values and is at most half full, for any hash function |
| InList.Int4Table.Probe | src/pg_jitter_simd.c:962-976 | the probe ends and returns 1 exactly for listed values |
| InList.ProbeSorted | src/pg_jitter_simd.c:991-1018 | the branchless search stays inside the array and returns 1 exactly for members |
| InList.ProbeBoth | src/pg_jitter_simd.c:962-1018 | the hash table and the sorted array of a list agree on every value |
| InListText.BuildText | src/pg_jitter_simd.c:1317-1394 | the text table holds exactly the listed texts, each beside its own hash |
| InListText.TextTable.Probe | src/pg_jitter_simd.c:1482-1514 | comparing hash, length and bytes returns 1 exactly for listed texts |
| ScalarArray.Decided | src/pg_jitter_simd.c:1253-1264 | once an element decides, the rest cannot change the answer |
| ScalarArray.StrictNull | src/pg_jitter_simd.c:1182-1185 | a null scalar makes a strict operator unknown over every non-empty array |
| ScalarArray.EqualityMeans | src/pg_jitter_simd.c:1201-1220 | on an array without nulls ANY of an equality is membership |
| ScalarArray.Loop | src/pg_jitter_simd.c:1222-1276 | the loop with its bitmap and data cursors returns the three-valued OR or AND of all elements |
| ScalarArray.ScalarArrayOp | src/pg_jitter_simd.c:1155-1278 | all paths leave the three-valued meaning of ANY or ALL in the result cell |
| ArrayMeaning.AnyMeans | src/pg_jitter_simd.c:1179-1278 | ANY is true exactly when some element gives true, false exactly when all give false, the empty array included |
| ArrayMeaning.AllMeans | src/pg_jitter_simd.c:1179-1278 | ALL is false exactly when some element gives false, true exactly when all give true, the empty array included |
| ArrayMeaning.ItemsAreListed | src/pg_jitter_simd.c:1222-1250 | an array that lists items, a set bit for each value and a clear one for each null, has these items as its elements |
| ArrayMeaning.EmptyExample | src/pg_jitter_simd.c:1179-1182 | over no elements ANY is false and ALL is true |
| SharedArena.WriteKeepsLog | src/pg_jitter_common.c:2393-2400 | writing an entry behind the others destroys none of them |
| SharedArena.TailKeepsLog | src/pg_jitter_deform_jit.c:3525-3528 | writing the reserved tail destroys no entry |
| SharedArena.LookupIsFirst | src/pg_jitter_common.c:2462-2512 | a lookup yields the first entry with the key, or none if there is none |
| SharedCode.ScanIsOk | src/pg_jitter_common.c:2462-2520 | one turn of the scan stays on the entries, and reaches no error code |
| SharedCode.LeaderKeepsInv | src/pg_jitter_common.c:2347-2405 | every step of storing code or sharing the deform code keeps the invariant |
| SharedCode.WorkerKeepsInv | src/pg_jitter_common.c:2415-2523 | every step of a lookup keeps the invariant |
| SharedCode.SafeInEveryInterleaving | src/pg_jitter_common.c:2347-2572 | in every interleaving used space and tail fit the capacity, entries overlap neither each other nor the tail, and what was stored stays readable |
| SharedCode.LookupsAreRight | src/pg_jitter_common.c:2415-2572 | in every interleaving a finished lookup has the first entry with node, ordinal and fingerprint, or nothing; no error code shows |
| SharedProgress.SizesAre | src/pg_jitter_common.c:2347-2400 | an entry takes 32 bytes and its code, rounded up to a multiple of 8, and the first stands at 88 |
| SharedProgress.StoreEnds | src/pg_jitter_common.c:2347-2405 | in every interleaving a store ends with the entry in the log if it fitted, and else with the log as it was |
| SharedProgress.SharingEnds | src/pg_jitter_deform_jit.c:3490-3530 | in every interleaving deform code for which there is room is shared, when none was |
| SharedProgress.LookupsEnd | src/pg_jitter_common.c:2415-2523 | inside the lock every step of a worker brings it nearer to its answer, and with the answer it frees the lock |
| RelocateWords.MovedValue | src/pg_jitter_common.c:2711-2724 | moving an address by delta, part by part with carries, adds the numbers modulo 2^64 |
| RelocateWords.MovedBack | src/pg_jitter_common.c:2711-2724 | a helper minus delta is the leader's address exactly when the address plus delta is the helper |
| RelocateWords.SeenExactlyWhen | src/pg_jitter_common.c:2910-2913 | the test takes a branch through any register for a call through rd exactly when rd is register 0 |
| Relocate.LookUp | src/pg_jitter_common.c:2711-2762 | an address is known exactly when a helper of this process is delta above it, modulo 2^64 |
| Relocate.RelocateCode | src/pg_jitter_common.c:2834-2968 | every word ends up as specified; the result is -1 exactly when a seen call has an unknown target, else the number of patched runs; equal references change nothing |
| Relocate.RunTarget | src/pg_jitter_common.c:2940-2948 | a run stays a run on its register, and its address moves by delta exactly when it is patched |
| Relocate.SuccessMeans | src/pg_jitter_common.c:2834-2968 | on success every seen call goes to a known helper at old address plus delta, and the result counts them |
| Relocate.FieldsStay | src/pg_jitter_common.c:2940-2951 | opcodes and registers never change and runs share no word |
| Relocate.CallMovedExactlyWhen | src/pg_jitter_common.c:2910-2948 | a constant called through its own register is moved if and only if the register is register 0 |
| RelocateForm.RunExactlyWhen | src/pg_jitter_common.c:2866-2900 | the words of a run are those the masks 0xFFE00000 and 0xFFE0001F find, in 32-bit instructions |
| RelocateForm.CallExactlyWhen | src/pg_jitter_common.c:2910-2913 | the test for a call in 32-bit instructions: 0xD63F0000 or 0xD61F0000 and the register under the mask 0xFFFFFC1F |
| RelocateForm.NumberMoves | src/pg_jitter_common.c:2834-2968 | on success the constant in front of every call that is seen has moved by the distance of the references, modulo 2^64 |
| RelocateForm.KnownExactlyWhen | src/pg_jitter_common.c:2711-2762 | an address is known exactly when some helper other than null is that distance above it |
| RelocateForm.ResultIs | src/pg_jitter_common.c:2834-2968 | the result is -1 exactly when some call goes to no known helper, else the number of moved calls |
| CacheStore.RegisteredIsLive | src/pg_jitter_pcre2.c:71-96 | a registered entry is live and counted, so generated code never refers to a freed one |
| CacheStore.UnregisterKeepsInv | src/pg_jitter_pcre2.c:69-82 | unpinning keeps the invariant, and frees exactly the entry that is out of the cache and no longer pinned |
| CacheStore.PinKeepsInv | src/pg_jitter_pcre2.c:84-94 | pinning keeps reference count and registrations equal |
| CacheStore.EvictKeepsInv | src/pg_jitter_pcre2.c:167-183 | eviction empties the slot and frees an unpinned entry once; a pinned one lives on |
| CacheStore.ChooseIsRight | src/pg_jitter_pcre2.c:133-165 | a used slot is taken only when all are used, a pinned one only when all are pinned, the least recently used of those in question |
| CacheStore.CompileKeepsInv | src/pg_jitter_pcre2.c:1201-1356 | every outcome of compiling, failures included, keeps the invariant: distinct keys, exact counts, nothing lost, nothing freed twice |
| CacheStore.CompileGives | src/pg_jitter_pcre2.c:1244-1356 | an entry handed out has the requested key, is live and registered; a cached key is never compiled again |
| PatternCache.Cache.ChooseSlot | src/pg_jitter_pcre2.c:133-165 | the loop returns the chosen slot |
| PatternCache.Cache.PublishAndPinEntry | src/pg_jitter_pcre2.c:96-131 | a published entry is pinned, or withdrawn and freed when registering raises |
| PatternCache.Cache.CompilePattern | src/pg_jitter_pcre2.c:1201-1356 | the whole new state and the reply, on every path |
| PatternCache.Cache.ReleaseContext | src/pg_jitter_common.c:771-789 | releasing a context undoes its registrations one by one and leaves none |
| PatternCache.ReleaseSparesOthers | src/pg_jitter_common.c:771-789 | entries registered in another context stay live |
| PatternCache.NothingLeaks | src/pg_jitter_pcre2.c:40-82 | with all contexts released, every entry is in the cache or was freed exactly once |
| CacheRuns.AlwaysInv | src/pg_jitter_pcre2.c:69-183 | the invariant holds in every state of every run of attaching, asking and releasing |
| CacheRuns.SafeInEveryRun | src/pg_jitter_pcre2.c:69-183 | in every run: freed at most once and never while pinned or cached, counts equal registrations, keys distinct |
| CacheRuns.FreedForGood | src/pg_jitter_pcre2.c:69-82 | what was freed stays freed, and no entry changes its key |
| CacheRuns.HandedOutStaysLive | src/pg_jitter_pcre2.c:1201-1356 | an entry handed out to a context stays live with its key until that context is released, whatever happens in between |
| CacheOrder.GotExactlyWhen | src/pg_jitter_pcre2.c:1201-1356 | an entry is handed out exactly when the pattern is usable, the pin can be registered and the entry is cached or can be made; an error is raised exactly when only the registration fails |
| CacheOrder.MarkedAtLastUse | src/pg_jitter_pcre2.c:1244-1260 | in every run each entry carries the clock of its last use |
| CacheOrder.GivenUpWhenFull | src/pg_jitter_pcre2.c:133-183 | an entry is given up only when all 64 slots are in use, a pinned one only when all are pinned |
| CacheOrder.GivenUpIsOldest | src/pg_jitter_pcre2.c:133-183 | in every run the entry given up is, among those pinned or not like it, the one whose last use lies furthest back |

## Left out

- RunRewritten: takes the wiring of cells that the expression compiler emits.
- GenericExactlyWhen: says nothing where the detector compares a null pointer in place of a threshold that a step is still to write; the model stops there (`Stuck`).
- RewrittenRangeExactlyWhen: that a longer THEN or ELSE shows is said of parts that end with a step whose value is open; one that ends in the constant of an inner CASE is covered by the other half only (`RunRewrittenRange`).
- EmitSites: the search pointer that is stored in a step of every listed pattern, replaced or not, is not modelled.
- DeformReadsBack: is stated for little-endian machines, and for a slot that holds no column yet; `DeformInTwoSteps` has the others.
- DispatchLoop: requires columns whose alignment is the one built into their handler; `HandlerExactlyWhen` says for which columns a handler is right at all. Bytes behind a tuple are read as zeros; only `OverrunExample` looks at them.
- AddNumericFast: squares are not kept on this path; the caller uses it for SUM and AVG only. The inverse transition of moving aggregates is not modelled.
- RunConserves: inputs the fast path refuses, and carries, are steps of the server that are taken to add exactly and to keep digits proper.
- RelocateCode: instruction words are modelled as their three fields; the x86-64 byte scan, memory protection and instruction cache flushing are not modelled.
- SafeInEveryInterleaving: processes are a state machine on values, one step for each access to shared memory, so the arena is not updated in place here; attaching to the shared deform code is not modelled.
- CompilePattern: allocation failures appear as outcomes of the environment; an entry that is dropped before it is published never enters the model.
- BuildInt4: `hash & mask` is written as a remainder, the table size being a power of two; CRC32C and the text hash are arbitrary functions. NULL elements of a list are handled by the callers and left out.
- ScalarArrayOp: array elements are a sequence of values, without the byte layout and alignment of array data.
- MatchCompiled: detoasting, and UTF-8 characters behind `_` (the compiler declines them), are left out.
- LikeToRegex: reads `.` as any byte and leaves the matching of PCRE2 and the translation of raw regular expressions out.
- The instruction selection of SLJIT, AsmJit and MIR, SIMD encodings and the other layouts of the loop-based deform.
- Float comparisons are taken as total orders in which all NaNs are equal and largest, as their comparators define.
- Eligibility tests for collations and encodings are inputs of the model.
- Operators, casts, dates, JSON and adaptive selection of backends: single calls that would add only easy members.
