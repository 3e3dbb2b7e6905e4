# CommentUpdater core in Dafny

A Dafny model of the token pipeline CommentUpdater uses to decide whether a
Java method's doc comment still matches its code, and of the tools around it
that label a dataset of such changes. Each module follows one source file:

- `DiffMarkers`, `Deltas`, `DiffPositions`, `CodeDiffs`, `CommentDiffs`
  (`CodeCommentDiffs.kt`): the `<KEEP>`/`<REPLACE_OLD>`/… marker vocabulary
  and its classifiers; the token-aligned search `getValidPositions` and
  `getFrequency`; the coarse edit-node list built by `getCoarseDiffStructure`,
  modelled as a class of linked nodes; `computeMinimalCommentDiffs`, which
  borrows tokens from neighbouring KEEP nodes one at a time until an edit can
  be located uniquely, restores them on failure and falls back to the
  full-replace span. The imperative methods are proved equal to functional
  specifications. Also `computeCodeDiffs`, which builds the span, token and
  command streams. `CommentDiffExamples` restates the unit tests of
  `DiffTest.kt` as lemmas.
- `Tokenizer`, `CoreTokenizer`, `LegacyTokenizer` (the three
  `CodeCommentTokenizer` objects): the shared scanning rules are alphanumeric
  runs or single symbols, camelCase sub-tokenization, and removal of literal
  tags and `<...>` spans. `CoreTokenizer` adds the comment rules of the core
  copy: '/' and '*' dropped, and the `@return` prefix. `LegacyTokenizer` has
  the always-strip rules of the older copy.
- `Features` (`JITModelFeatureExtractor.kt`): the code and comment feature
  matrices filled in place. These are arrays of 19 and 53 one-hot slots, with
  the `lastCommand` state and the sub-token labels.
- `Detector` (both `JITDetector.kt`): vocabulary lookup with an unknown-token
  fallback, truncate-or-pad id rows, input lengths, and the two verdict rules.
- `Metrics`, `MethodChanges` (`MetricsCalculator.kt`,
  `MethodChangesExtractor.kt`): the refactoring flags, letter filtering, the
  "nothing changed" guards, and the counts of a `MethodMetric`.
- `Refactorings`, `RefactoringUtils`, `RefactoringExtractor`: RefactoringMiner
  results as a datatype, the last-wins name-change maps, and the group-by of
  `methodsToRefactoringTypes`.
- `PostProcessing` (`PostProcessing.kt`): `MethodBranchHandler` as a class
  over maps, and the newest-first labelling pass of `processProject`.
- `Rebooter` (`rebooter.py`): `chunk`, `check_opening`, `extract_project`, and
  the batch/requeue main loop.
- `Wrappers`, `Text`, `Collections`: Option/Result, and the string and list
  helpers of the Kotlin and Python standard libraries.

Foreign code enters as function parameters:
- the diff library's `DiffUtils.diff` as `diff`, with its contract (the deltas
  spell both token lists, equal regions included) as a precondition;
- the similarity model as `sim`;
- the neural classifier as `score` (in `Detector.Predict`) and as `output` (in
  `Detector.PredictLegacy`). `PredictLegacy` also takes `subTokenizeComment`,
  which is the plugin-core tokenizer's `CoreTokenizer.SubTokenizeComment`
  because the older `JITDetector.kt` imports that tokenizer, and
  `spanCodeSequence`, which comes from the older plugin's own diff module);
- the pipeline of one sample pair as `methodMetrics`;
- RefactoringMiner's refactoring detection as `detect`;
- the rebooter's miner run (thread, subprocess, timeout-log polling and kill)
  as `run`.

## Model

| member | source | states |
|---|---|---|
| `DiffMarkers.MarkerShape` | comment-updater-core/src/main/kotlin/org/jetbrains/research/commentupdater/processors/CodeCommentDiffs.kt:14-41 | every token of the four keyword lists is a `<...>` word of at least six characters |
| `DiffMarkers.NodeTypesDistinct` | comment-updater-core/src/main/kotlin/org/jetbrains/research/commentupdater/processors/CodeCommentDiffs.kt:14-39 | the four node types KEEP, REPLACE, INSERT and DELETE are pairwise different strings |
| `DiffMarkers.CommandMarkersDistinct` | comment-updater-core/src/main/kotlin/org/jetbrains/research/commentupdater/processors/CodeCommentDiffs.kt:15-39 | the five markers that open a pair of the code-diff stream are pairwise different |
| `DiffMarkers.MarkerClasses` | comment-updater-core/src/main/kotlin/org/jetbrains/research/commentupdater/processors/CodeCommentDiffs.kt:41-88 | COPY_SEQUENCE is not an edit marker; `isDelete` holds exactly for DELETE and DELETE_END, `isKeep` exactly for KEEP and KEEP_END; the REPLACE and INSERT lists have 12 and 8 entries |
| `Deltas.EqualDiff` | comment-updater-core/src/main/kotlin/org/jetbrains/research/commentupdater/processors/CodeCommentDiffs.kt:96 | the delta list for two equal token lists consists of Equal deltas only |
| `Deltas.EqualDiffWellFormed` | comment-updater-core/src/main/kotlin/org/jetbrains/research/commentupdater/processors/CodeCommentDiffs.kt:96 | that delta list covers the token list on both sides, so it satisfies the diff library's contract |
| `Deltas.DeleteInsertWellFormed` | comment-updater-core/src/main/kotlin/org/jetbrains/research/commentupdater/processors/CodeCommentDiffs.kt:96 | a diff that deletes all old tokens and inserts all new ones, or keeps everything for equal lists, is well formed for every pair of lists |
| `Deltas.DiffContractSatisfiable` | comment-updater-core/src/main/kotlin/org/jetbrains/research/commentupdater/processors/CodeCommentDiffs.kt:96 | some diff function meets the contract required of `DiffUtils.diff`, so the results stated under that contract are not vacuous |
| `DiffPositions.CandidateMatchesIsMatch` | comment-updater-core/src/main/kotlin/org/jetbrains/research/commentupdater/processors/CodeCommentDiffs.kt:149-158 | the source's candidate test (first token equal, every search token in range and equal) holds exactly when the search tokens occur at that position |
| `DiffPositions.ValidPositionsFromMeaning` | comment-updater-core/src/main/kotlin/org/jetbrains/research/commentupdater/processors/CodeCommentDiffs.kt:149-159 | the positions found from `p` on are exactly the matching positions at or after `p`, strictly increasing |
| `DiffPositions.ValidPositionsMeaning` | comment-updater-core/src/main/kotlin/org/jetbrains/research/commentupdater/processors/CodeCommentDiffs.kt:141-160 | `getValidPositions` returns, in ascending order, exactly the token indices at which the space-split search string occurs in the space-split full string; runs past the end are rejected |
| `DiffPositions.FrequencyMeaning` | comment-updater-core/src/main/kotlin/org/jetbrains/research/commentupdater/processors/CodeCommentDiffs.kt:162-164 | `getFrequency` is 0 exactly when there is no occurrence and 1 exactly when there is a single occurrence |
| `DiffPositions.PositionsCount` | comment-updater-core/src/main/kotlin/org/jetbrains/research/commentupdater/processors/CodeCommentDiffs.kt:162-164 | a sorted list of exactly the matching positions has length 0 iff nothing matches and length 1 iff one position matches |
| `DiffPositions.FrequencyOfTokens` | comment-updater-core/src/main/kotlin/org/jetbrains/research/commentupdater/processors/CodeCommentDiffs.kt:141-170 | for space-free tokens joined by spaces, the frequency is the number of token-level occurrences, and 1 means a unique occurrence |
| `DiffPositions.InnuendoExample` | src/test/kotlin/DiffTest.kt:11-17 | "innuendo" occurs at tokens 0 and 4 of the test sentence |
| `DiffPositions.InnuendoMatches` | src/test/kotlin/DiffTest.kt:11-17 | the token-level search for "innuendo" in the test sentence finds positions 0 and 4 |
| `CodeDiffs.ComputeCodeDiffs` | comment-updater-core/src/main/kotlin/org/jetbrains/research/commentupdater/processors/CodeCommentDiffs.kt:386-431 | the three streams are those of the deltas taken in order |
| `CodeDiffs.AddDelta` | comment-updater-core/src/main/kotlin/org/jetbrains/research/commentupdater/processors/CodeCommentDiffs.kt:392-428 | one delta appends its span, its marker/token pairs and its commands, by delta type |
| `CodeDiffs.AddTokens` | comment-updater-core/src/main/kotlin/org/jetbrains/research/commentupdater/processors/CodeCommentDiffs.kt:395-426 | each line is appended behind its marker to the token stream, and to the command stream either as a pair or as the bare marker |
| `CodeDiffs.StreamsAppend` | comment-updater-core/src/main/kotlin/org/jetbrains/research/commentupdater/processors/CodeCommentDiffs.kt:388-430 | reading a concatenation of two token streams reads each in turn (old side, new side and commands) |
| `CodeDiffs.PairsReadAll` | comment-updater-core/src/main/kotlin/org/jetbrains/research/commentupdater/processors/CodeCommentDiffs.kt:395-426 | a run of pairs with one marker alternates marker and content, holds the lines on the marker's side(s), and gives bare markers as commands for KEEP and REPLACE_OLD |
| `CodeDiffs.DeltaRead` | comment-updater-core/src/main/kotlin/org/jetbrains/research/commentupdater/processors/CodeCommentDiffs.kt:392-428 | the tokens of one delta read back give its source lines (old side), its target lines (new side) and its commands |
| `CodeDiffs.CodeTokensRead` | comment-updater-core/src/main/kotlin/org/jetbrains/research/commentupdater/processors/CodeCommentDiffs.kt:388-430 | the token stream alternates marker and content; its old-side contents are the source lines and its new-side contents the target lines; the command stream is the token stream with KEEP and REPLACE_OLD pairs shrunk to the marker |
| `CodeDiffs.CodeDiffsRecoverTokens` | comment-updater-core/src/main/kotlin/org/jetbrains/research/commentupdater/processors/CodeCommentDiffs.kt:386-431 | for a well-formed diff the token stream has even length and holds the old tokens (KEEP/REPLACE_OLD/DELETE) and the new tokens (KEEP/REPLACE_NEW/INSERT), each in order |
| `CodeDiffs.RepeatCount` | comment-updater-core/src/main/kotlin/org/jetbrains/research/commentupdater/models/metrics/MetricsCalculator.kt:94-100 | bare KEEP commands are not counted as changes, other bare markers all are |
| `CodeDiffs.PairsCount` | comment-updater-core/src/main/kotlin/org/jetbrains/research/commentupdater/models/metrics/MetricsCalculator.kt:94-100 | each pair behind a marker other than KEEP counts at least once as a change |
| `CodeDiffs.DeltaChanged` | comment-updater-core/src/main/kotlin/org/jetbrains/research/commentupdater/processors/CodeCommentDiffs.kt:392-428 | only an Equal delta gives no command other than KEEP |
| `CodeDiffs.NoChangedCommands` | comment-updater-core/src/main/kotlin/org/jetbrains/research/commentupdater/processors/CodeCommentDiffs.kt:386-431 | the command stream holds only KEEP exactly when every delta is an Equal delta |
| `CodeDiffs.CodeUnchangedIffEqual` | comment-updater-core/src/main/kotlin/org/jetbrains/research/commentupdater/processors/CodeCommentDiffs.kt:386-431 | under the diff library's contract, the code diff has a non-KEEP command exactly when the token lists differ |
| `CodeDiffs.NotKeepCount` | comment-updater-core/src/main/kotlin/org/jetbrains/research/commentupdater/models/metrics/MetricsCalculator.kt:96 | the number of non-KEEP commands is at most the number of commands |
| `CommentDiffs.CoarseNode` | comment-updater-core/src/main/kotlin/org/jetbrains/research/commentupdater/processors/CodeCommentDiffs.kt:97-122 | an Equal delta becomes a KEEP node of its source lines, a Change a REPLACE node of source + REPLACE_NEW + target, an Insert an INSERT node of its target lines and any other delta a DELETE node of its source lines |
| `CommentDiffs.CoarseNodes` | comment-updater-core/src/main/kotlin/org/jetbrains/research/commentupdater/processors/CodeCommentDiffs.kt:94-124 | one node per delta, in order, each the node of its delta; every REPLACE node holds a REPLACE_NEW separator |
| `CommentDiffs.IndexOf` | comment-updater-core/src/main/kotlin/org/jetbrains/research/commentupdater/processors/CodeCommentDiffs.kt:243 | `indexOf` is the first position holding the token |
| `CommentDiffs.RepOld` | comment-updater-core/src/main/kotlin/org/jetbrains/research/commentupdater/processors/CodeCommentDiffs.kt:243-245 | the old side of a REPLACE node is everything before its first REPLACE_NEW, and the node is the old side followed by the new side starting at REPLACE_NEW |
| `CommentDiffs.AdoptBefore` | comment-updater-core/src/main/kotlin/org/jetbrains/research/commentupdater/processors/CodeCommentDiffs.kt:188-196 | the number of tokens borrowed from the end of the previous KEEP node is within that node's length |
| `CommentDiffs.AdoptBeforeLeast` | comment-updater-core/src/main/kotlin/org/jetbrains/research/commentupdater/processors/CodeCommentDiffs.kt:188-196 | borrowing from the previous KEEP node stops at the least suffix length that makes the search string unique, and fails exactly when no suffix length does |
| `CommentDiffs.AdoptAfter` | comment-updater-core/src/main/kotlin/org/jetbrains/research/commentupdater/processors/CodeCommentDiffs.kt:215-223 | the number of tokens borrowed from the front of the next KEEP node is within that node's length |
| `CommentDiffs.AdoptAfterLeast` | comment-updater-core/src/main/kotlin/org/jetbrains/research/commentupdater/processors/CodeCommentDiffs.kt:215-223 | borrowing from the next KEEP node stops at the least prefix length that makes the search string unique, and fails exactly when no prefix length does |
| `CommentDiffs.BorrowBefore` | comment-updater-core/src/main/kotlin/org/jetbrains/research/commentupdater/processors/CodeCommentDiffs.kt:186-187 | borrowing before succeeds only when there is a previous node and it is a KEEP node, with a count between 1 and its length |
| `CommentDiffs.BorrowAfter` | comment-updater-core/src/main/kotlin/org/jetbrains/research/commentupdater/processors/CodeCommentDiffs.kt:213-214 | borrowing after succeeds only when there is a next node and it is a KEEP node, with a count between 1 and its length |
| `CommentDiffs.FullReplaceSpan` | comment-updater-core/src/main/kotlin/org/jetbrains/research/commentupdater/processors/CodeCommentDiffs.kt:382-384 | `getFullReplaceSpan` is REPLACE_OLD, the old tokens, REPLACE_NEW, the new tokens and REPLACE_END, in that order |
| `CommentDiffs.ProcessNodeAnchored` | comment-updater-core/src/main/kotlin/org/jetbrains/research/commentupdater/processors/CodeCommentDiffs.kt:175-368 | a node that does not abort the walk is emitted as itself (KEEP), on its own (DELETE/REPLACE that are unique, never INSERT) or with a non-empty borrowed context from one side |
| `CommentDiffs.ProcessAnchored` | comment-updater-core/src/main/kotlin/org/jetbrains/research/commentupdater/processors/CodeCommentDiffs.kt:175-369 | a walk that does not abort emits one node per coarse node, each anchored as above |
| `CommentDiffs.MinimalCommentDiffsCases` | comment-updater-core/src/main/kotlin/org/jetbrains/research/commentupdater/processors/CodeCommentDiffs.kt:167-380 | `computeMinimalCommentDiffs` returns the full replacement span when some node can be located neither on its own nor with borrowed context, and otherwise the spans of one anchored node per coarse node |
| `CommentDiffs.DirectWhenUnique` | comment-updater-core/src/main/kotlin/org/jetbrains/research/commentupdater/processors/CodeCommentDiffs.kt:178-185 | a DELETE or REPLACE node whose old tokens occur exactly once in the old text is emitted at once as DELETE/REPLACE_OLD + children + its end marker |
| `CommentDiffs.InsertNeedsContext` | comment-updater-core/src/main/kotlin/org/jetbrains/research/commentupdater/processors/CodeCommentDiffs.kt:312-367 | an INSERT node never takes the direct path: it is emitted only with a non-empty borrowed context |
| `CommentDiffs.BorrowsBefore` | comment-updater-core/src/main/kotlin/org/jetbrains/research/commentupdater/processors/CodeCommentDiffs.kt:186-206 | when borrowing from the previous KEEP node succeeds with `m` tokens, that node loses its last `m` tokens and the edit is replaced by the KEEP_BEFORE node built with them |
| `CommentDiffs.BorrowsAfter` | comment-updater-core/src/main/kotlin/org/jetbrains/research/commentupdater/processors/CodeCommentDiffs.kt:207-234 | when borrowing before fails and borrowing from the next KEEP node succeeds with `m` tokens, the previous node keeps its tokens, the next loses its first `m` and the edit is replaced by the KEEP_AFTER node |
| `CommentDiffs.ProcessStep` | comment-updater-core/src/main/kotlin/org/jetbrains/research/commentupdater/processors/CodeCommentDiffs.kt:175-368 | the walk continues from the next node with the state one node leaves |
| `CommentDiffs.ProcessAllKeep` | comment-updater-core/src/main/kotlin/org/jetbrains/research/commentupdater/processors/CodeCommentDiffs.kt:176-177 | a walk over KEEP nodes never aborts and emits only KEEP nodes |
| `CommentDiffs.EmitAllKeep` | comment-updater-core/src/main/kotlin/org/jetbrains/research/commentupdater/processors/CodeCommentDiffs.kt:370-378 | KEEP nodes contribute nothing to the spans |
| `CommentDiffs.EqualTokensNoDiff` | comment-updater-core/src/main/kotlin/org/jetbrains/research/commentupdater/processors/CodeCommentDiffs.kt:167-380 | equal token lists (the empty list included) give no spans at all |
| `CommentDiffs.EmitByType` | comment-updater-core/src/main/kotlin/org/jetbrains/research/commentupdater/processors/CodeCommentDiffs.kt:370-378 | the emission loop closes INSERT, REPLACE and DELETE nodes with INSERT_END, REPLACE_END and DELETE_END and skips KEEP nodes |
| `CommentDiffs.EditNode.constructor` | comment-updater-core/src/main/kotlin/org/jetbrains/research/commentupdater/processors/CodeCommentDiffs.kt:6 | a new node holds the given type, children and links |
| `CommentDiffs.GetCoarseDiffStructure` | comment-updater-core/src/main/kotlin/org/jetbrains/research/commentupdater/processors/CodeCommentDiffs.kt:94-139 | one fresh node per delta, in order, with that delta's type and children; with two nodes or more node `i` links to `i - 1` and `i + 1` where they exist, otherwise nothing is linked |
| `CommentDiffs.AdoptFromPrevious` | comment-updater-core/src/main/kotlin/org/jetbrains/research/commentupdater/processors/CodeCommentDiffs.kt:188-196 | the loop moves tokens one at a time from the end of the previous node to the front of the adopted list until the search is unique or that node is empty; it stops at the least unique suffix |
| `CommentDiffs.BorrowLast` | comment-updater-core/src/main/kotlin/org/jetbrains/research/commentupdater/processors/CodeCommentDiffs.kt:191-195 | one iteration moves the last token of the previous node to the front of the adopted list and re-tests uniqueness |
| `CommentDiffs.AdoptFromNext` | comment-updater-core/src/main/kotlin/org/jetbrains/research/commentupdater/processors/CodeCommentDiffs.kt:215-223 | the loop moves tokens one at a time from the front of the next node to the end of the adopted list until the search is unique or that node is empty; it stops at the least unique prefix |
| `CommentDiffs.AdoptOrRestore` | comment-updater-core/src/main/kotlin/org/jetbrains/research/commentupdater/processors/CodeCommentDiffs.kt:188-238 | after a failed borrow the KEEP node has exactly its original tokens again, in order; after a successful one it has lost exactly the borrowed ones |
| `CommentDiffs.MarkDirect` | comment-updater-core/src/main/kotlin/org/jetbrains/research/commentupdater/processors/CodeCommentDiffs.kt:181-184 | a unique DELETE or REPLACE node gets DELETE or REPLACE_OLD prepended in place and is collected |
| `CommentDiffs.Splice` | comment-updater-core/src/main/kotlin/org/jetbrains/research/commentupdater/processors/CodeCommentDiffs.kt:200-233 | a new node takes the links of the edit node and its neighbours are pointed at it |
| `CommentDiffs.TryBefore` | comment-updater-core/src/main/kotlin/org/jetbrains/research/commentupdater/processors/CodeCommentDiffs.kt:186-211 | succeeds exactly when borrowing before is possible, then splices the KEEP_BEFORE node in; otherwise the list is as before |
| `CommentDiffs.TryAfter` | comment-updater-core/src/main/kotlin/org/jetbrains/research/commentupdater/processors/CodeCommentDiffs.kt:213-240 | succeeds exactly when borrowing after is possible, then splices the KEEP_AFTER node in |
| `CommentDiffs.HandleNode` | comment-updater-core/src/main/kotlin/org/jetbrains/research/commentupdater/processors/CodeCommentDiffs.kt:175-368 | one step of the walk on the objects does what the specification's step does |
| `CommentDiffs.WalkNodes` | comment-updater-core/src/main/kotlin/org/jetbrains/research/commentupdater/processors/CodeCommentDiffs.kt:174-369 | the loop over the coarse list stops early exactly when the specified walk aborts, and otherwise collects the nodes it emits, in order |
| `CommentDiffs.EmitNodes` | comment-updater-core/src/main/kotlin/org/jetbrains/research/commentupdater/processors/CodeCommentDiffs.kt:370-378 | the emission loop appends the spans of the collected nodes in order |
| `CommentDiffs.ComputeMinimalCommentDiffs` | comment-updater-core/src/main/kotlin/org/jetbrains/research/commentupdater/processors/CodeCommentDiffs.kt:167-380 | the linked-list algorithm returns exactly the specified minimal comment diff |
| `CommentDiffExamples.SimpleReplaceExample` | src/test/kotlin/DiffTest.kt:30-38 | when the token diff reports one Change of "a" into "A", the minimal comment diff is REPLACE_OLD a REPLACE_NEW A REPLACE_END, as the simple replace test expects |
| `CommentDiffExamples.ReplaceWithContextExample` | src/test/kotlin/DiffTest.kt:40-49 | a change of "2020" into "2021" inside unchanged context needs no borrowed context because "2020" occurs once: REPLACE_OLD 2020 REPLACE_NEW 2021 REPLACE_END |
| `CommentDiffExamples.SimpleInsertExample` | src/test/kotlin/DiffTest.kt:51-59 | an insertion borrows "world" from the KEEP region before it, the shortest unique context, giving INSERT_OLD_KEEP_BEFORE world INSERT_NEW_KEEP_BEFORE world its 2021 INSERT_END |
| `CommentDiffExamples.SimpleDeleteExample` | src/test/kotlin/DiffTest.kt:61-69 | a deletion of the unique "its 2021" needs no context: DELETE its 2021 DELETE_END |
| `CommentDiffExamples.DeleteWithContextBeforeExample` | src/test/kotlin/DiffTest.kt:71-79 | a deletion whose deleted token is not unique adopts "C" from the KEEP region before it: REPLACE_OLD_DELETE_KEEP_BEFORE C B REPLACE_NEW_DELETE_KEEP_BEFORE C REPLACE_END |
| `CommentDiffExamples.DeleteWithContextAfterExample` | src/test/kotlin/DiffTest.kt:81-89 | with no KEEP region before it, a deletion adopts "B A" from the region after it: REPLACE_OLD_DELETE_KEEP_AFTER A B A REPLACE_NEW_DELETE_KEEP_AFTER B A REPLACE_END |
| `CommentDiffExamples.MixedExample` | src/test/kotlin/DiffTest.kt:91-100 | an insertion followed by a change yields two spans in order: INSERT_OLD_KEEP_BEFORE hello INSERT_NEW_KEEP_BEFORE hello cruel INSERT_END, then REPLACE_OLD ! REPLACE_NEW ? REPLACE_END |
| `Tokenizer.TagsNonEmpty` | comment-updater-core/src/main/kotlin/org/jetbrains/research/commentupdater/processors/CodeCommentTokenizer.kt:9-10 | every redundant tag and every comment tag is a non-empty string, so removing its occurrences is well defined |
| `Tokenizer.AlnumEndMeaning` | comment-updater-core/src/main/kotlin/org/jetbrains/research/commentupdater/processors/CodeCommentTokenizer.kt:48 | the `[a-zA-Z0-9]+` alternative matches a run that is alphanumeric throughout and stops only at the end of the text or at a non-alphanumeric character |
| `Tokenizer.ScanFromPositions` | comment-updater-core/src/main/kotlin/org/jetbrains/research/commentupdater/processors/CodeCommentTokenizer.kt:48-52 | every match of the token regex is the text found at its start position, and start positions lie within the text |
| `Tokenizer.ScanFromKinds` | comment-updater-core/src/main/kotlin/org/jetbrains/research/commentupdater/processors/CodeCommentTokenizer.kt:48-52 | every match is a word (a non-empty alphanumeric run) or a symbol (one character that is neither whitespace nor alphanumeric) |
| `Tokenizer.TokenKind` | comment-updater-core/src/main/kotlin/org/jetbrains/research/commentupdater/processors/CodeCommentTokenizer.kt:48 | at a non-space position the regex matches a word that ends where the alphanumeric run ends, or otherwise exactly one symbol character |
| `Tokenizer.ScanFromRightMaximal` | comment-updater-core/src/main/kotlin/org/jetbrains/research/commentupdater/processors/CodeCommentTokenizer.kt:48-52 | a word match cannot be extended to the right: it ends at the end of the text or before a non-alphanumeric character |
| `Tokenizer.ScanFromLeftMaximal` | comment-updater-core/src/main/kotlin/org/jetbrains/research/commentupdater/processors/CodeCommentTokenizer.kt:48-52 | a word match cannot be extended to the left: it starts where the scan starts or after a non-alphanumeric character |
| `Tokenizer.ScanFromConcat` | comment-updater-core/src/main/kotlin/org/jetbrains/research/commentupdater/processors/CodeCommentTokenizer.kt:48-52 | joined together, the matches spell the scanned text with every `\s` character removed |
| `Tokenizer.ScanMeaning` | comment-updater-core/src/main/kotlin/org/jetbrains/research/commentupdater/processors/CodeCommentTokenizer.kt:48-52 | the matches lie at increasing, non-overlapping positions, each a maximal alphanumeric run or a single non-space non-alphanumeric character, and together they spell the text without whitespace |
| `Tokenizer.ScanToken` | comment-updater-core/src/main/kotlin/org/jetbrains/research/commentupdater/processors/CodeCommentTokenizer.kt:92-99 | scanning a single token again gives back exactly that token, so the second scan in `subTokenizeCode` changes nothing |
| `Tokenizer.TagClose` | comment-updater-core/src/main/kotlin/org/jetbrains/research/commentupdater/processors/CodeCommentTokenizer.kt:57 | the lazy `<.*?>` match closes at the first '>' and only when no line terminator comes before it |
| `Tokenizer.RemoveTagSpansClean` | comment-updater-core/src/main/kotlin/org/jetbrains/research/commentupdater/processors/CodeCommentTokenizer.kt:57-58 | after the `<.*?>` replacement no `<...>` span within a line is left |
| `Tokenizer.RemoveTagSpansIdentity` | comment-updater-core/src/main/kotlin/org/jetbrains/research/commentupdater/processors/CodeCommentTokenizer.kt:57-58 | the span removal changes a text exactly when it holds a `<...>` span, and applying it twice is the same as once |
| `Tokenizer.RemoveEach` | comment-updater-core/src/main/kotlin/org/jetbrains/research/commentupdater/processors/CodeCommentTokenizer.kt:59-61 | the loop replacing each tag by "" in turn yields the text with every occurrence of every tag removed, in list order |
| `Tokenizer.RemoveTagString` | comment-updater-core/src/main/kotlin/org/jetbrains/research/commentupdater/processors/CodeCommentTokenizer.kt:65-71 | `removeTagString` removes every literal occurrence of the six comment tags, in list order |
| `Tokenizer.RemoveHtmlTag` | comment-updater-core/src/main/kotlin/org/jetbrains/research/commentupdater/processors/CodeCommentTokenizer.kt:56-63 | `removeHTMLTag` removes the `<...>` spans first and then every literal occurrence of the redundant tags, in list order |
| `Tokenizer.TokenizeTextMeaning` | comment-updater-core/src/main/kotlin/org/jetbrains/research/commentupdater/processors/CodeCommentTokenizer.kt:39-54 | every token of `tokenizeText` is a word or a symbol, and together they spell the cleaned text (tags stripped when asked, newlines made spaces, trimmed) without whitespace |
| `Tokenizer.TokenizeTextChars` | comment-updater-core/src/main/kotlin/org/jetbrains/research/commentupdater/processors/CodeCommentTokenizer.kt:39-54 | every character of every token comes from the input text |
| `Tokenizer.CleanTextChars` | comment-updater-core/src/main/kotlin/org/jetbrains/research/commentupdater/processors/CodeCommentTokenizer.kt:40-46 | cleaning the text only removes characters, apart from the spaces that replace newlines |
| `Tokenizer.PiecesConcat` | comment-updater-core/src/main/kotlin/org/jetbrains/research/commentupdater/processors/CodeCommentTokenizer.kt:77-79 | the pieces that `split(" ")` makes of a spaced space-free token spell the token |
| `Tokenizer.PiecesCutAtBoundaries` | comment-updater-core/src/main/kotlin/org/jetbrains/research/commentupdater/processors/CodeCommentTokenizer.kt:77-79 | no piece holds a lower-case-or-digit to upper-case boundary, and consecutive pieces meet at exactly such a boundary |
| `Tokenizer.TokenPiecesMeaning` | comment-updater-core/src/main/kotlin/org/jetbrains/research/commentupdater/processors/CodeCommentTokenizer.kt:76-79 | the sub-tokens of one space-free token: at least one, non-empty unless the trimmed token is empty, spelling the trimmed token, cut at every camelCase boundary and nowhere else |
| `Tokenizer.TokenPiecesShape` | comment-updater-core/src/main/kotlin/org/jetbrains/research/commentupdater/processors/CodeCommentTokenizer.kt:77-79 | every sub-token of a scanned token is alphanumeric throughout or at most one character long |
| `Tokenizer.SubTokenizeTokens` | comment-updater-core/src/main/kotlin/org/jetbrains/research/commentupdater/processors/CodeCommentTokenizer.kt:73-87 | the loop appends the pieces of every token in turn and lower-cases the result when asked: the result is the specification `SubTokenized` |
| `Tokenizer.SubTokensCount` | comment-updater-core/src/main/kotlin/org/jetbrains/research/commentupdater/processors/CodeCommentTokenizer.kt:73-81 | every token gives at least one sub-token, so there are at least as many sub-tokens as tokens |
| `Tokenizer.SubTokensConcat` | comment-updater-core/src/main/kotlin/org/jetbrains/research/commentupdater/processors/CodeCommentTokenizer.kt:73-81 | the sub-tokens of trimmed, space-free tokens spell the tokens joined together |
| `Tokenizer.SubTokenizedLowerCase` | comment-updater-core/src/main/kotlin/org/jetbrains/research/commentupdater/processors/CodeCommentTokenizer.kt:82-86 | lower-casing keeps the sub-tokens one for one: the same number, together the lower-cased text, and no upper-case letter left |
| `Tokenizer.SubTokenizeCode` | comment-updater-core/src/main/kotlin/org/jetbrains/research/commentupdater/processors/CodeCommentTokenizer.kt:89-102 | `subTokenizeCode` (scan the code, scan each token again, split into sub-tokens) equals `subTokenizeTokens` of `tokenizeCode` |
| `Tokenizer.RescanTokens` | comment-updater-core/src/main/kotlin/org/jetbrains/research/commentupdater/processors/CodeCommentTokenizer.kt:91-99 | scanning every token of a code scan a second time gives back exactly the same token list |
| `Tokenizer.SubTokensOfScan` | comment-updater-core/src/main/kotlin/org/jetbrains/research/commentupdater/processors/CodeCommentTokenizer.kt:73-101 | the sub-tokens of a scanned text spell that text without whitespace, and there are at least as many as tokens |
| `Tokenizer.CodeSubTokensSpell` | comment-updater-core/src/main/kotlin/org/jetbrains/research/commentupdater/processors/CodeCommentTokenizer.kt:89-106 | joined together, the sub-tokens of a piece of code are its trimmed text without whitespace, lower-cased when asked |
| `Tokenizer.ReturnMarkerNotToken` | comment-updater-core/src/main/kotlin/org/jetbrains/research/commentupdater/processors/CodeCommentTokenizer.kt:48-52 | "@return" is not a single token of the regex, because '@' is a symbol on its own |
| `Tokenizer.NoReturnToken` | comment-updater-core/src/main/kotlin/org/jetbrains/research/commentupdater/processors/CodeCommentTokenizer.kt:39-54 | no token or sub-token produced from a text is ever "@return" |
| `Tokenizer.NoReturnSubToken` | comment-updater-core/src/main/kotlin/org/jetbrains/research/commentupdater/processors/CodeCommentTokenizer.kt:73-86 | sub-tokenizing scanned tokens never yields "@return", lower-cased or not |
| `Tokenizer.SubTokenizedAfterMarker` | comment-updater-core/src/main/kotlin/org/jetbrains/research/commentupdater/processors/CodeCommentTokenizer.kt:15 | sub-tokenizing a list that starts with "@return" keeps "@return" in front and sub-tokenizes the rest |
| `Tokenizer.ReturnMarkerPieces` | comment-updater-core/src/main/kotlin/org/jetbrains/research/commentupdater/processors/CodeCommentTokenizer.kt:14-18 | "@return" is one sub-token and lower-casing leaves it unchanged |
| `CoreTokenizer.WithoutStars` | comment-updater-core/src/main/kotlin/org/jetbrains/research/commentupdater/processors/CodeCommentTokenizer.kt:13 | the filtered comment holds no '/' and no '*' and keeps every other character of the comment |
| `CoreTokenizer.CommentMarker` | comment-updater-core/src/main/kotlin/org/jetbrains/research/commentupdater/processors/CodeCommentTokenizer.kt:12-37 | the "@return" token appears exactly when the star-free trimmed comment starts with "@return" or "@param", and then only in first position, for both `tokenizeComment` and `subTokenizeComment` |
| `CoreTokenizer.FilteredMarker` | comment-updater-core/src/main/kotlin/org/jetbrains/research/commentupdater/processors/CodeCommentTokenizer.kt:28-37 | on the filtered comment, `tokenizeComment` holds the "@return" token exactly when the text opens with a tag, and never past the first position |
| `CoreTokenizer.SubCommentShape` | comment-updater-core/src/main/kotlin/org/jetbrains/research/commentupdater/processors/CodeCommentTokenizer.kt:12-21 | `subTokenizeComment` is the "@return" token followed by the tag-stripped, lower-cased sub-tokens when the filtered comment opens with "@return" or "@param", and the lower-cased sub-tokens with tags kept otherwise |
| `CoreTokenizer.SubCommentMarker` | comment-updater-core/src/main/kotlin/org/jetbrains/research/commentupdater/processors/CodeCommentTokenizer.kt:12-21 | `subTokenizeComment` holds the "@return" token exactly when the filtered comment opens with a tag, and never past the first position |
| `CoreTokenizer.FilteredTokensShape` | comment-updater-core/src/main/kotlin/org/jetbrains/research/commentupdater/processors/CodeCommentTokenizer.kt:29-36 | on the filtered comment, an opening "@return" or "@param" gives the "@return" token followed by the tag-stripped tokens; any other opening gives the tokens with tags kept |
| `CoreTokenizer.FilteredTokensChars` | comment-updater-core/src/main/kotlin/org/jetbrains/research/commentupdater/processors/CodeCommentTokenizer.kt:28-36 | a filtered comment holding no '/' and no '*' yields no token holding either |
| `CoreTokenizer.SubTokenizeCommentOfTokens` | comment-updater-core/src/main/kotlin/org/jetbrains/research/commentupdater/processors/CodeCommentTokenizer.kt:12-37 | `subTokenizeComment` is `subTokenizeTokens` with lower-casing applied to `tokenizeComment` |
| `CoreTokenizer.CommentWithoutStars` | comment-updater-core/src/main/kotlin/org/jetbrains/research/commentupdater/processors/CodeCommentTokenizer.kt:28-37 | no token of a comment holds a '/' or a '*' |
| `LegacyTokenizer.CreateSample` | src/main/kotlin/org/jetbrains/research/commentupdater/CodeCommentTokenizer.kt:29-31 | `createSample` keeps the comment and code and stores their lower-cased sub-tokens, the comment's with tags stripped |
| `LegacyTokenizer.NoReturnMarker` | src/main/kotlin/org/jetbrains/research/commentupdater/CodeCommentTokenizer.kt:33-44 | this tokenizer always strips tags and never produces a "@return" token or sub-token |
| `LegacyTokenizer.CommentTokensMeaning` | src/main/kotlin/org/jetbrains/research/commentupdater/CodeCommentTokenizer.kt:42-60 | comment tokens are words and symbols that spell the tag-stripped comment without whitespace |
| `Detector.GetIdOrUnk` | comment-updater-core/src/main/kotlin/org/jetbrains/research/commentupdater/models/jit/JITDetector.kt:169-171 | a token in the vocabulary gets its own id; otherwise the unknown token's id when the vocabulary has one, and 0 when it has neither |
| `Detector.Take` | comment-updater-core/src/main/kotlin/org/jetbrains/research/commentupdater/models/jit/JITDetector.kt:59 | `take(n)` keeps a prefix of the list of length min(n, size) |
| `Detector.PaddedIdsSized` | comment-updater-core/src/main/kotlin/org/jetbrains/research/commentupdater/models/jit/JITDetector.kt:53-70 | with a size n the row has exactly n ids: the ids of the first min(size, n) tokens in order, then the padding element up to n |
| `Detector.PaddedIdsPlain` | comment-updater-core/src/main/kotlin/org/jetbrains/research/commentupdater/models/jit/JITDetector.kt:59-69 | without a size every token is looked up, with neither truncation nor padding |
| `Detector.PaddedIdsTruncation` | comment-updater-core/src/main/kotlin/org/jetbrains/research/commentupdater/models/jit/JITDetector.kt:53-70 | a sized row depends only on the tokens it keeps: truncating to n first gives the same row |
| `Detector.InputsMeaning` | comment-updater-core/src/main/kotlin/org/jetbrains/research/commentupdater/models/jit/JITDetector.kt:110-124 | both id rows have their configured widths, each length is min(token count, width) and counts the real ids at the front of its row, and every later slot holds the id of the padding token in that row's vocabulary |
| `Detector.PredictMeaning` | comment-updater-core/src/main/kotlin/org/jetbrains/research/commentupdater/models/jit/JITDetector.kt:72-167 | the verdict is null exactly without a doc comment or when a tensor cannot be built, and otherwise "inconsistent" exactly when the class-1 probability of the comment's inputs is at least 0.5 |
| `Detector.PredictLegacyMeaning` | src/main/kotlin/org/jetbrains/research/commentupdater/models/jit/JITDetector.kt:68-141 | the older verdict is null without a doc comment or a tensor, and otherwise "inconsistent" exactly when the raw first output reaches 0.9 |
| `MethodChanges.CodeSubTokensMeaning` | comment-updater-core/src/main/kotlin/org/jetbrains/research/commentupdater/processors/MethodChangesExtractor.kt:20-26 | the filtered code sub-tokens are the lower-cased code sub-tokens that hold a letter, and none of them is a command marker |
| `MethodChanges.CommentSubTokensMeaning` | comment-updater-core/src/main/kotlin/org/jetbrains/research/commentupdater/processors/MethodChangesExtractor.kt:20-30 | the filtered comment sub-tokens are the comment's sub-tokens that hold a letter, and none of them is a command marker |
| `MethodChanges.MethodChangedIff` | comment-updater-core/src/main/kotlin/org/jetbrains/research/commentupdater/processors/MethodChangesExtractor.kt:19-47 | under the diff library's contract a method counts as changed exactly when its filtered code sub-tokens differ or the comment diff is not empty |
| `MethodChanges.IdenticalUnchanged` | comment-updater-core/src/main/kotlin/org/jetbrains/research/commentupdater/processors/MethodChangesExtractor.kt:36-45 | the same code and the same comment on both sides never count as a change |
| `Metrics.HasTypeMeaning` | comment-updater-core/src/main/kotlin/org/jetbrains/research/commentupdater/models/metrics/MetricsCalculator.kt:52-75 | a refactoring flag is set exactly when a refactoring of its type is in the list |
| `Metrics.HasTypeIgnoresOthers` | comment-updater-core/src/main/kotlin/org/jetbrains/research/commentupdater/models/metrics/MetricsCalculator.kt:52-75 | refactorings of other types (the `else` branch) do not affect a flag |
| `Metrics.RefactoringFlags` | comment-updater-core/src/main/kotlin/org/jetbrains/research/commentupdater/models/metrics/MetricsCalculator.kt:46-75 | the loop over the refactorings sets each of the six flags exactly when a refactoring of its type occurs in the list |
| `Metrics.EvenFollowersAreContents` | comment-updater-core/src/main/kotlin/org/jetbrains/research/commentupdater/models/metrics/MetricsCalculator.kt:111-118 | `deletedOrReplaced` is the set of contents of the REPLACE_OLD and DELETE pairs of the token stream |
| `Metrics.FollowersAreContents` | comment-updater-core/src/main/kotlin/org/jetbrains/research/commentupdater/models/metrics/MetricsCalculator.kt:144-150 | in the alternating token stream, the entries that follow a given marker are exactly the contents of its pairs, in order: pairs that straddle two entries never count |
| `Metrics.CodeStatements` | comment-updater-core/src/main/kotlin/org/jetbrains/research/commentupdater/models/metrics/MetricsCalculator.kt:111-150 | the removed statements are the REPLACE_OLD and DELETE contents, each an old code sub-token; the added statements are the REPLACE_NEW and INSERT contents, each a new code sub-token; `deletedOrReplaced` is the set of removed statements |
| `Metrics.Abs` | comment-updater-core/src/main/kotlin/org/jetbrains/research/commentupdater/models/metrics/MetricsCalculator.kt:142 | the absolute value is non-negative and equals x or -x |
| `Metrics.CalculateMetrics` | comment-updater-core/src/main/kotlin/org/jetbrains/research/commentupdater/models/metrics/MetricsCalculator.kt:38-197 | `calculateMetrics` returns the specification `MetricsOf`: the flag loop, the filtered sub-token lists, both diffs, the two early returns and the record |
| `Metrics.BuildMetric` | comment-updater-core/src/main/kotlin/org/jetbrains/research/commentupdater/models/metrics/MetricsCalculator.kt:109-196 | after both guards the record holds the counts, the exact quotients, the similarities and their distances, and the statement counts |
| `Metrics.MetricsGuards` | comment-updater-core/src/main/kotlin/org/jetbrains/research/commentupdater/models/metrics/MetricsCalculator.kt:104-128 | there are no metrics exactly when nothing changed (no non-KEEP code command and an empty comment diff) or when the old-code, new-code or new-comment sub-token list is empty |
| `Metrics.IdenticalNoMetrics` | comment-updater-core/src/main/kotlin/org/jetbrains/research/commentupdater/models/metrics/MetricsCalculator.kt:98-107 | the same code and the same comment on both sides never give metrics |
| `Metrics.MetricsCounts` | comment-updater-core/src/main/kotlin/org/jetbrains/research/commentupdater/models/metrics/MetricsCalculator.kt:174-196 | each flag says whether a refactoring of its type is in the list; the lengths are those of the filtered lists, all positive; the changed length counts the non-KEEP commands; the intersection counts the comment sub-tokens among the removed statements; the percentages are the exact quotients |
| `Metrics.IntersectionMeaning` | comment-updater-core/src/main/kotlin/org/jetbrains/research/commentupdater/models/metrics/MetricsCalculator.kt:111-122 | a comment sub-token counts towards the intersection exactly when it is a removed statement of the code |
| `Metrics.ChangedSimWithoutStatements` | comment-updater-core/src/main/kotlin/org/jetbrains/research/commentupdater/models/metrics/MetricsCalculator.kt:152-172 | either changed-statement similarity is 0.0 when there are no such statements and the similarity of those statements otherwise, and both distances are non-negative |
| `Refactorings.FullName` | comment-updater-core/src/main/kotlin/org/jetbrains/research/commentupdater/utils/RefactoringUtils.kt:36-44 | the full name is the class name, a '.', then the method name, with the parameter types kept in order |
| `Refactorings.FullNameInjective` | comment-updater-core/src/main/kotlin/org/jetbrains/research/commentupdater/utils/RefactoringUtils.kt:36-44 | for dot-free class names two operations share a full name exactly when class, name and parameter types agree |
| `RefactoringUtils.FullNameChangesFails` | comment-updater-core/src/main/kotlin/org/jetbrains/research/commentupdater/utils/RefactoringUtils.kt:13-35 | `extractFullNameChanges` throws exactly when one of the four name-changing refactorings is not of one of the four operation classes |
| `RefactoringUtils.FullNameChangesMeaning` | comment-updater-core/src/main/kotlin/org/jetbrains/research/commentupdater/utils/RefactoringUtils.kt:11-48 | a name-changing refactoring that no later one with the same after-name overrides maps its full name after the change to its full name before it (later pairs win) |
| `RefactoringUtils.FullNameChangesKeys` | comment-updater-core/src/main/kotlin/org/jetbrains/research/commentupdater/utils/RefactoringUtils.kt:13-48 | the keys of the map are exactly the after-names of the rename, change-parameter-type, add-parameter and remove-parameter refactorings |
| `RefactoringUtils.FullNameChangesTotal` | comment-updater-core/src/main/kotlin/org/jetbrains/research/commentupdater/utils/RefactoringUtils.kt:19-35 | when every name-changing refactoring has one of the four operation classes the map is always built |
| `RefactoringUtils.ClassRenamesMeaning` | comment-updater-core/src/main/kotlin/org/jetbrains/research/commentupdater/utils/RefactoringUtils.kt:51-68 | a class move that no later move of the same class overrides maps the original class name to the moved or renamed name, and a move of an unexpected class makes the call fail |
| `RefactoringUtils.ClassRenamesFails` | comment-updater-core/src/main/kotlin/org/jetbrains/research/commentupdater/utils/RefactoringUtils.kt:56-66 | the class map fails exactly when some class move is of neither expected class; otherwise it is built |
| `RefactoringUtils.ClassRenamesKeys` | comment-updater-core/src/main/kotlin/org/jetbrains/research/commentupdater/utils/RefactoringUtils.kt:51-68 | only class moves give keys: the keys are exactly the original class names of the MoveClass and MoveRenameClass refactorings |
| `RefactoringExtractor.MethodKeyIsFullName` | src/main/kotlin/org/jetbrains/research/commentupdater/processors/RefactoringExtractor.kt:28-56 | the six types of REFACTORINGS are exactly those with a cast, their key is `className.name` of the operation after the refactoring, and every other type gets the key "" |
| `RefactoringExtractor.MethodsToRefactoringTypes` | src/main/kotlin/org/jetbrains/research/commentupdater/processors/RefactoringExtractor.kt:25-64 | the call fails, as the `ClassCastException` of an `as` cast, exactly when some refactoring of the six types does not have its type's class; otherwise the loop appends each refactoring to the bucket of its key, creating the bucket on first use, and the result is the grouping `Grouped` |
| `RefactoringExtractor.GroupedIsFilter` | src/main/kotlin/org/jetbrains/research/commentupdater/processors/RefactoringExtractor.kt:57-61 | each bucket holds, in input order, exactly the refactorings with its key and is never empty, and keys without refactorings get no bucket |
| `RefactoringExtractor.GroupedPartition` | src/main/kotlin/org/jetbrains/research/commentupdater/processors/RefactoringExtractor.kt:25-64 | every refactoring lands in the bucket of its own key and in no other, each bucket keeps the input order, and the keys are exactly those of the input |
| `RefactoringExtractor.ExtractMeaning` | src/main/kotlin/org/jetbrains/research/commentupdater/processors/RefactoringExtractor.kt:66-90 | `extract` keeps, in order, exactly the detected refactorings of the six types, and returns nothing when either revision's content is missing |
| `Features.FeatureSet` | src/main/kotlin/org/jetbrains/research/commentupdater/models/jit/JITModelFeatureExtractor.kt:115-120 | the set of a feature holds exactly the tokens of its list, and is empty when the method has no such feature |
| `Features.MarkOverlap` | src/main/kotlin/org/jetbrains/research/commentupdater/models/jit/JITModelFeatureExtractor.kt:135-163 | the two four-way `when`s set exactly one of slots 0-3 and one of 4-7 of the row and change nothing else |
| `Features.FillCodeRow` | src/main/kotlin/org/jetbrains/research/commentupdater/models/jit/JITModelFeatureExtractor.kt:135-202 | one iteration sets the code row of the entry to `CodeRow`, leaves the other rows alone, and moves `lastCommand` to the entry when it is an edit marker |
| `Features.GetCodeFeatures` | src/main/kotlin/org/jetbrains/research/commentupdater/models/jit/JITModelFeatureExtractor.kt:110-213 | a fresh `maxCodeLen` x 19 matrix whose row i is the row of span entry i, given the last edit marker before it, while i is below both the span length and `maxCodeLen`, and zero elsewhere |
| `Features.CodeRowOverlap` | src/main/kotlin/org/jetbrains/research/commentupdater/models/jit/JITModelFeatureExtractor.kt:135-163 | slots 0-7 are 0 or 1 and say whether the entry is in both, only the old, only the new or neither of the return-type sets, and likewise of the return-statement sets |
| `Features.CodeRowKind` | src/main/kotlin/org/jetbrains/research/commentupdater/models/jit/JITModelFeatureExtractor.kt:165-180 | slot 8 marks edit markers, then 9 Java keywords, 10 operators (no letter or digit) and 11 words of the comment, each only when no earlier one applies |
| `Features.CodeRowCommand` | src/main/kotlin/org/jetbrains/research/commentupdater/models/jit/JITModelFeatureExtractor.kt:182-209 | slots 12-16 give a non-marker entry the last command seen (keep, insert, delete, replace-new, anything else), markers get none, and slots 17 and 18 stay zero |
| `Features.CodeRowGroups` | src/main/kotlin/org/jetbrains/research/commentupdater/models/jit/JITModelFeatureExtractor.kt:135-202 | exactly one of slots 0-3 and one of 4-7 is set, at most one of 8-11, and exactly one of 12-16 when the entry is not a marker |
| `Features.LastCommandMeaning` | src/main/kotlin/org/jetbrains/research/commentupdater/models/jit/JITModelFeatureExtractor.kt:129-202 | `lastCommand` is "" until the first edit marker of the span and afterwards the latest marker seen |
| `Features.ParamTagPieces` | src/main/kotlin/org/jetbrains/research/commentupdater/models/jit/JITModelFeatureExtractor.kt:221 | "@param", like "@return", is a single sub-token, so keeping it whole does not change the count |
| `Features.AddPieceLabels` | src/main/kotlin/org/jetbrains/research/commentupdater/models/jit/JITModelFeatureExtractor.kt:226-234 | one token appends label 0 and index 0 when it has one piece, else label 1 with indices 0..k-1 |
| `Features.GetSubTokenLabels` | src/main/kotlin/org/jetbrains/research/commentupdater/models/jit/JITModelFeatureExtractor.kt:217-237 | the loop returns the labels and indices of every token in turn, as the specification `SubTokenLabels` gives them |
| `Features.PieceLabelsMeaning` | src/main/kotlin/org/jetbrains/research/commentupdater/models/jit/JITModelFeatureExtractor.kt:226-234 | a token with k pieces gets k labels and k indices: (0, 0) for one piece, label 1 with index i for piece i otherwise |
| `Features.TokenSubsCount` | src/main/kotlin/org/jetbrains/research/commentupdater/models/jit/JITModelFeatureExtractor.kt:221-225 | a token contributes as many labels as it has sub-tokens, also when it is kept whole |
| `Features.SubTokenLabelsMeaning` | src/main/kotlin/org/jetbrains/research/commentupdater/models/jit/JITModelFeatureExtractor.kt:217-237 | there is one label and one index per lower-cased sub-token of the tokens; each label is 0 or 1, and label 0 goes with index 0 |
| `Features.ZipWithNext` | src/main/kotlin/org/jetbrains/research/commentupdater/models/jit/JITModelFeatureExtractor.kt:245 | `zipWithNext` pairs each token with the one after it, one pair fewer than tokens |
| `Features.FollowerSetMeaning` | src/main/kotlin/org/jetbrains/research/commentupdater/models/jit/JITModelFeatureExtractor.kt:245-269 | a sub-token is in the set of a marker exactly when it comes right after that marker somewhere in the code-diff token stream |
| `Features.DuplicatesMeaning` | src/main/kotlin/org/jetbrains/research/commentupdater/models/jit/JITModelFeatureExtractor.kt:244 | the duplicates are exactly the sub-tokens held at two different positions of the old comment |
| `Features.MarkFlags` | src/main/kotlin/org/jetbrains/research/commentupdater/models/jit/JITModelFeatureExtractor.kt:323-329 | slots 8-14 of the row get the seven membership flags and nothing else changes |
| `Features.FillCommentRow` | src/main/kotlin/org/jetbrains/research/commentupdater/models/jit/JITModelFeatureExtractor.kt:292-333 | one iteration sets the row of the lower-cased sub-token to `CommentRow` and leaves the other rows alone |
| `Features.FillCommentRows` | src/main/kotlin/org/jetbrains/research/commentupdater/models/jit/JITModelFeatureExtractor.kt:288-334 | on a zero matrix, the loop fills row i with the row of lower-cased sub-token i, its label and its index for every i below both the sub-token count and the row count, and leaves the other rows zero; it reports `false` exactly when one of those rows has no label |
| `Features.GetCommentFeatures` | src/main/kotlin/org/jetbrains/research/commentupdater/models/jit/JITModelFeatureExtractor.kt:239-336 | a fresh `maxCommentLen` x 53 matrix whose row i is the row of old comment sub-token i with its label and index, for i below both the sub-token count and `maxCommentLen`, zero elsewhere; it fails exactly when a filled row has no label |
| `Features.CommentRowOverlap` | src/main/kotlin/org/jetbrains/research/commentupdater/models/jit/JITModelFeatureExtractor.kt:293-321 | slots 0-7 of a comment row are 0 or 1 and say which of the return-type and return-statement sets hold the lower-cased sub-token |
| `Features.CommentRowFlags` | src/main/kotlin/org/jetbrains/research/commentupdater/models/jit/JITModelFeatureExtractor.kt:323-333 | slots 8-14 are 0 or 1 and say whether the sub-token follows INSERT, KEEP, DELETE, REPLACE_OLD or REPLACE_NEW, is a stop word or a duplicate; 15 and 16 are its label and index; only part-of-speech slot 17 + 35 is set |
| `Rebooter.ChunkMeaning` | rebooter.py:23-25 | with a positive size the chunks spell the input, none is empty or longer than the size, and all but the last have exactly the size; size 0 gives none |
| `Rebooter.CheckOpening` | rebooter.py:28-29 | `check_opening` is Python's `in`: true exactly when the tag occurs at some position of the content (`Text.Contains`), so a tag longer than the content never matches and the empty tag always does |
| `Rebooter.CheckOpeningFinds` | rebooter.py:28-29 | any text with the tag somewhere in it is an opening state |
| `Rebooter.CloseAt` | rebooter.py:33 | the lazy `.*?]` closes at the first ']' after the '[', unless a line break comes first |
| `Rebooter.FirstSpan` | rebooter.py:33-34 | the first match of `\[.*?]` starts at the earliest '[' whose continuation closes, and no earlier '[' closes |
| `Rebooter.ExtractProject` | rebooter.py:32-36 | `extract_project` is the text strictly inside the first bracketed span that `findall` returns, and "" when the log has none; it holds neither ']' nor a line break |
| `Rebooter.ExtractProjectOfLine` | rebooter.py:32-36 | a log line with one bracketed name and no '[' before it gives back that name |
| `Rebooter.Basename` | rebooter.py:137 | the last piece of `split(os.sep)` holds no separator |
| `Rebooter.IndexOf` | rebooter.py:138 | `.index` gives the first position holding the name, and fails exactly when the name is absent |
| `Rebooter.Reverse` | rebooter.py:140 | `extendleft` puts the items in front in reverse order |
| `Rebooter.TakeBatch` | rebooter.py:127-129 | the batch is the first min(5, queue length) projects of the queue |
| `Rebooter.RoundShrinks` | rebooter.py:127-143 | a successful round shrinks the queue, completes at most its batch, and queue plus completed plus the terminated project account for every project |
| `Rebooter.RoundOutcome` | rebooter.py:135-143 | without a termination the round completes the whole batch; with one it fails exactly when no batch member has that basename |
| `Rebooter.RoundKeepsProjects` | rebooter.py:136-141 | after a termination no project is lost or duplicated, and the terminated project is the first in the batch with that basename |
| `Rebooter.RequeueKeeps` | rebooter.py:139-140 | requeueing the projects after the terminated one keeps, with those before it and itself, every project of the batch and the queue |
| `Rebooter.PopBatch` | rebooter.py:127-129 | the inner `while` pops the batch off the front of the queue and leaves the rest |
| `Rebooter.PlayRound` | rebooter.py:127-141 | one pass of the loop body pops the batch, runs it and finishes the round, with the outcome `Round` of the queue and the run's answer; a successful round leaves a shorter queue |
| `Rebooter.ExtendLeft` | rebooter.py:140 | `extendleft` leaves the reversed items followed by the old queue |
| `Rebooter.FinishRound` | rebooter.py:135-143 | the tail of a round returns the round outcome `Round` for the batch and the rest of the queue |
| `Rebooter.ProcessQueue` | rebooter.py:122-143 | the main loop returns the result of the round-by-round specification `RunAll`, with each batch counted by its actual size |
| `Rebooter.ProcessedCountsProjects` | rebooter.py:122-143 | on a successful run PROCESSED plus the number of terminations equals the number of projects, so PROCESSED never exceeds TOTAL |
| `Rebooter.ProcessedAsWritten` | rebooter.py:135-143 | the counter as written: after a termination it adds the `pos` projects done before the hung one, and after a clean round it adds `batch_size`, which is never less than the projects done and exceeds them when fewer than five were queued |
| `Rebooter.ShortBatchOvercounts` | rebooter.py:143 | as written, one project and a clean round make PROCESSED 5 while TOTAL is 1 |
| `PostProcessing.CommitNumberUpdated` | comment-updater-postprocessing/src/main/kotlin/org/jetbrains/research/commentupdater/PostProcessing.kt:35-41 | after `updateCommitNumber` the branch always has a commit count |
| `PostProcessing.MethodBranchHandler.constructor` | comment-updater-postprocessing/src/main/kotlin/org/jetbrains/research/commentupdater/PostProcessing.kt:27-33 | a fresh handler has handed out no branch and holds empty maps |
| `PostProcessing.MethodBranchHandler.UpdateCommitNumber` | comment-updater-postprocessing/src/main/kotlin/org/jetbrains/research/commentupdater/PostProcessing.kt:35-41 | the fields become `CommitNumberUpdated` of the old fields: the branch's count is one more, starting from 0 |
| `PostProcessing.MethodBranchHandler.BranchId` | comment-updater-postprocessing/src/main/kotlin/org/jetbrains/research/commentupdater/PostProcessing.kt:43-52 | the fields and result are `BranchIdOf` of the old fields: the method's branch, or a new unspoiled branch with the next number |
| `PostProcessing.MethodBranchHandler.GetInconsistencySample` | comment-updater-postprocessing/src/main/kotlin/org/jetbrains/research/commentupdater/PostProcessing.kt:54-56 | returns the sample remembered for the branch, if any, and changes nothing |
| `PostProcessing.MethodBranchHandler.RegisterInconsistencySample` | comment-updater-postprocessing/src/main/kotlin/org/jetbrains/research/commentupdater/PostProcessing.kt:58-61 | remembers the sample under the branch of its old method name |
| `PostProcessing.MethodBranchHandler.IsConsistencySpoiled` | comment-updater-postprocessing/src/main/kotlin/org/jetbrains/research/commentupdater/PostProcessing.kt:63-65 | returns the branch's status, false for an unknown branch, and changes nothing |
| `PostProcessing.MethodBranchHandler.SetBranchStatus` | comment-updater-postprocessing/src/main/kotlin/org/jetbrains/research/commentupdater/PostProcessing.kt:67-69 | records the status of the branch |
| `PostProcessing.MethodBranchHandler.RegisterNameChange` | comment-updater-postprocessing/src/main/kotlin/org/jetbrains/research/commentupdater/PostProcessing.kt:71-75 | the new name takes over the branch of the old name, which loses it |
| `PostProcessing.MethodBranchHandler.GetJumpLen` | comment-updater-postprocessing/src/main/kotlin/org/jetbrains/research/commentupdater/PostProcessing.kt:77-82 | returns the commits seen on the branch since the previous call (one less than the count on the first call) and records the current count |
| `PostProcessing.BranchIdStable` | comment-updater-postprocessing/src/main/kotlin/org/jetbrains/research/commentupdater/PostProcessing.kt:43-52 | asking twice for a method's branch gives the same branch, and asking for a known method changes nothing |
| `PostProcessing.BranchIdFresh` | comment-updater-postprocessing/src/main/kotlin/org/jetbrains/research/commentupdater/PostProcessing.kt:46-50 | an unknown method gets a branch number larger than every branch handed out so far, and that branch starts unspoiled |
| `PostProcessing.BranchIdValid` | comment-updater-postprocessing/src/main/kotlin/org/jetbrains/research/commentupdater/PostProcessing.kt:43-52 | `branchId` keeps every branch a method points to within the numbers handed out |
| `PostProcessing.NameChangeMeaning` | comment-updater-postprocessing/src/main/kotlin/org/jetbrains/research/commentupdater/PostProcessing.kt:71-75 | after a name change the old name has no branch, the new name has the old name's branch (a fresh one when it had none), and every other method keeps its branch |
| `PostProcessing.NameChangeValid` | comment-updater-postprocessing/src/main/kotlin/org/jetbrains/research/commentupdater/PostProcessing.kt:71-75 | a name change keeps the handler valid |
| `PostProcessing.UpdatedTimesCounts` | comment-updater-postprocessing/src/main/kotlin/org/jetbrains/research/commentupdater/PostProcessing.kt:35-41 | k updates of a branch count k commits on top of what it had |
| `PostProcessing.FirstJumpLen` | comment-updater-postprocessing/src/main/kotlin/org/jetbrains/research/commentupdater/PostProcessing.kt:77-82 | the first jump of a branch is the number of its commits minus one |
| `PostProcessing.NextJumpLen` | comment-updater-postprocessing/src/main/kotlin/org/jetbrains/research/commentupdater/PostProcessing.kt:77-82 | a later jump is the number of commits counted since the previous jump |
| `PostProcessing.BranchStatusMeaning` | comment-updater-postprocessing/src/main/kotlin/org/jetbrains/research/commentupdater/PostProcessing.kt:63-69 | the status just set is the status read back, and other branches keep theirs |
| `PostProcessing.BuildSample` | comment-updater-postprocessing/src/main/kotlin/org/jetbrains/research/commentupdater/PostProcessing.kt:255-283 | a sample exists exactly when the pair has metrics, and then carries those metrics and every given field unchanged |
| `PostProcessing.HandleBothChanged` | comment-updater-postprocessing/src/main/kotlin/org/jetbrains/research/commentupdater/PostProcessing.kt:200-223 | the code-and-comment branch does to the handler and the output what `BothChanged` says |
| `PostProcessing.HandleCodeOnly` | comment-updater-postprocessing/src/main/kotlin/org/jetbrains/research/commentupdater/PostProcessing.kt:224-245 | the code-only branch emits nothing on a spoiled branch and otherwise the consistency pair of the sample |
| `PostProcessing.HandleChange` | comment-updater-postprocessing/src/main/kotlin/org/jetbrains/research/commentupdater/PostProcessing.kt:195-249 | once the commit is counted, the step does what `Dispatch` says for the sample's changes |
| `PostProcessing.ProcessSample` | comment-updater-postprocessing/src/main/kotlin/org/jetbrains/research/commentupdater/PostProcessing.kt:190-250 | one iteration of the loop of `processProject` does to the handler and the output what `ProcessSampleSpec` says |
| `PostProcessing.RenameContinuesBranch` | comment-updater-postprocessing/src/main/kotlin/org/jetbrains/research/commentupdater/PostProcessing.kt:190-197 | walking from new to old, a renamed sample continues the branch of its newer name, which then no longer names a branch |
| `PostProcessing.BothChangedRule` | comment-updater-postprocessing/src/main/kotlin/org/jetbrains/research/commentupdater/PostProcessing.kt:200-223 | code and comment both changed: the branch becomes unspoiled and remembers the sample; a pair is emitted exactly when it remembered a newer sample and the pair has metrics, labelled an inconsistency from this sample's new version to the newer one's |
| `PostProcessing.BothChangedOnBranch` | comment-updater-postprocessing/src/main/kotlin/org/jetbrains/research/commentupdater/PostProcessing.kt:200-223 | the same rule stated on any state whose branch of the sample's old name is already counted: unspoiled afterwards, remembers the sample, and emits the inconsistency pair with the newer remembered sample exactly when that sample exists and the pair has metrics |
| `PostProcessing.CodeOnlyRule` | comment-updater-postprocessing/src/main/kotlin/org/jetbrains/research/commentupdater/PostProcessing.kt:224-245 | only the code changed: a consistency pair of the sample's own versions, with jump 0 and no newer commit, is emitted exactly when the branch is unspoiled and the pair has metrics; the branch keeps its status |
| `PostProcessing.CommentOnlyRule` | comment-updater-postprocessing/src/main/kotlin/org/jetbrains/research/commentupdater/PostProcessing.kt:246-249 | only the comment changed: nothing is emitted and the branch is spoiled |
| `PostProcessing.UnchangedRule` | comment-updater-postprocessing/src/main/kotlin/org/jetbrains/research/commentupdater/PostProcessing.kt:189-250 | neither changed: nothing is emitted and the branch keeps its status |
| `PostProcessing.DispatchFrame` | comment-updater-postprocessing/src/main/kotlin/org/jetbrains/research/commentupdater/PostProcessing.kt:195-249 | the change handling leaves the branch numbers, the method-to-branch map and the commit counts alone |
| `PostProcessing.SampleCountsCommit` | comment-updater-postprocessing/src/main/kotlin/org/jetbrains/research/commentupdater/PostProcessing.kt:196-198 | every sample counts exactly one more commit on its branch |
| `PostProcessing.ProcessSampleValid` | comment-updater-postprocessing/src/main/kotlin/org/jetbrains/research/commentupdater/PostProcessing.kt:189-250 | the per-sample step keeps the handler valid |
| `PostProcessing.InsertNewestFirst` | comment-updater-postprocessing/src/main/kotlin/org/jetbrains/research/commentupdater/PostProcessing.kt:186 | insertion adds exactly one sample to the list |
| `PostProcessing.InsertNewestFirstSorted` | comment-updater-postprocessing/src/main/kotlin/org/jetbrains/research/commentupdater/PostProcessing.kt:186 | inserting into a newest-first list keeps it newest first |
| `PostProcessing.InsertAddsOnly` | comment-updater-postprocessing/src/main/kotlin/org/jetbrains/research/commentupdater/PostProcessing.kt:186 | inserting adds only the new sample: every element is the new sample or an old one |
| `PostProcessing.SortNewestFirstSorted` | comment-updater-postprocessing/src/main/kotlin/org/jetbrains/research/commentupdater/PostProcessing.kt:186 | the sorted samples are newest commit first |
| `PostProcessing.SortNewestFirst` | comment-updater-postprocessing/src/main/kotlin/org/jetbrains/research/commentupdater/PostProcessing.kt:186 | the sorted samples are the same samples, as a multiset |
| `PostProcessing.InsertKeepsTies` | comment-updater-postprocessing/src/main/kotlin/org/jetbrains/research/commentupdater/PostProcessing.kt:186 | insertion puts the new sample in front of the samples that share its commit time and leaves the order of every commit time's samples unchanged |
| `PostProcessing.SortNewestFirstStable` | comment-updater-postprocessing/src/main/kotlin/org/jetbrains/research/commentupdater/PostProcessing.kt:186 | the sort is stable like `sortedBy`: for every commit time, the samples with that time come out in their input order |
| `PostProcessing.ProcessAllMeaning` | comment-updater-postprocessing/src/main/kotlin/org/jetbrains/research/commentupdater/PostProcessing.kt:189-252 | at most one pair is written per sample, and the handler stays valid |
| `PostProcessing.ProcessAllStep` | comment-updater-postprocessing/src/main/kotlin/org/jetbrains/research/commentupdater/PostProcessing.kt:189-252 | one more sample extends the run by its step and appends its pair, if any |
| `PostProcessing.ProcessOrdered` | comment-updater-postprocessing/src/main/kotlin/org/jetbrains/research/commentupdater/PostProcessing.kt:189-252 | the loop over the ordered samples runs the per-sample step on each; the handler and the written pairs are those of `ProcessAll` |
| `PostProcessing.ProcessNext` | comment-updater-postprocessing/src/main/kotlin/org/jetbrains/research/commentupdater/PostProcessing.kt:189-252 | one sample of the loop takes the handler and the written pairs from `ProcessAll` of the first i samples to `ProcessAll` of the first i + 1 |
| `PostProcessing.ProcessProject` | comment-updater-postprocessing/src/main/kotlin/org/jetbrains/research/commentupdater/PostProcessing.kt:180-253 | `processProject` sorts the samples newest first and runs the per-sample step on each; the handler and the written pairs are those of `ProcessAll` over the sorted samples |
| `Text.TrimStart` | comment-updater-core/src/main/kotlin/org/jetbrains/research/commentupdater/processors/CodeCommentTokenizer.kt:46 | trimming the front drops exactly the leading whitespace (Kotlin's `trim` also drops the separator controls 0x1C-0x1F) and keeps a suffix |
| `Text.TrimEnd` | comment-updater-core/src/main/kotlin/org/jetbrains/research/commentupdater/processors/CodeCommentTokenizer.kt:46 | trimming the end drops exactly the trailing whitespace and keeps a prefix |
| `Text.RemoveOccurrencesIdentity` | comment-updater-core/src/main/kotlin/org/jetbrains/research/commentupdater/processors/CodeCommentTokenizer.kt:68 | `replace(tag, "")` changes a text exactly when the tag occurs in it |
| `Text.RemoveAllIdentity` | comment-updater-core/src/main/kotlin/org/jetbrains/research/commentupdater/processors/CodeCommentTokenizer.kt:67-69 | removing a list of tags in turn changes a text exactly when one of the tags occurs in it |
| `Text.JoinSplit` | comment-updater-core/src/main/kotlin/org/jetbrains/research/commentupdater/processors/CodeCommentTokenizer.kt:79 | joining the pieces of `split(" ")` with spaces gives the text back, and no piece holds a space |
| `Text.SplitJoin` | comment-updater-core/src/main/kotlin/org/jetbrains/research/commentupdater/processors/CodeCommentTokenizer.kt:79 | splitting space-free pieces joined with spaces gives the pieces back |
| `Text.ConcatSplit` | comment-updater-core/src/main/kotlin/org/jetbrains/research/commentupdater/processors/CodeCommentTokenizer.kt:77-79 | the pieces of a split, joined without separator, are the text without its separators |
| `Collections.FilterMembers` | comment-updater-core/src/main/kotlin/org/jetbrains/research/commentupdater/models/metrics/MetricsCalculator.kt:77-83 | a filtered list holds exactly the items of the list that satisfy the predicate |
| `Collections.AssociateByKeys` | comment-updater-core/src/main/kotlin/org/jetbrains/research/commentupdater/utils/RefactoringUtils.kt:47 | the map built from a list of pairs has exactly the keys of the pairs |
| `Collections.AssociateByLastWins` | comment-updater-core/src/main/kotlin/org/jetbrains/research/commentupdater/utils/RefactoringUtils.kt:47 | of several pairs with one key the last one gives the map's value, as in `hashMapOf(*pairs)` and `associate` |
| `Collections.AssociateByFilterKeys` | comment-updater-core/src/main/kotlin/org/jetbrains/research/commentupdater/utils/RefactoringUtils.kt:50-55 | mapping the kept elements of a filter gives exactly the keys of the elements the filter accepts |
| `Features.LastMarkerMeaning` | src/main/kotlin/org/jetbrains/research/commentupdater/models/jit/JITModelFeatureExtractor.kt:182-209 | the last marker of a prefix is "" exactly when no entry is a marker, and otherwise a marker entry with no marker after it |

## Left out

- The PSI-bound parts of the modelled files are left out because they need IntelliJ syntax trees: `extractMethodCode`, `getOldMethod`, the `extract*` feature methods and the method-matching extractors.
- Similarity and the neural models are parameters. ONNX inference, embeddings, cosine distance and softmax are not modelled. Real numbers stand in for floats, with no rounding or NaN.
- The quotients of `calculateMetrics` are computed before its second guard. In Kotlin they give NaN or Infinity when a divisor is 0. The model computes them only after both guards, which returns the same result, because such a record is then discarded.
- `DiffUtils.diff` (the Myers algorithm of java-diff-utils) is not part of this model. Its deltas are an input, and minimality of the diff is not modelled.
- Each delta's chunk lists are assumed to be fresh copies, so editing a KEEP node's children does not alias the token lists.
- Character classes are ASCII. Regex `\s` is 9-13 and 32, and Kotlin `trim` whitespace is 9-13 and 28-32. Unicode letters, locale-dependent lower-casing and case folding are not modelled.
- The tokenizer inside `CodeCommentProcessing.kt` (lines 25-113) is the same text as `src/main/.../CodeCommentTokenizer.kt`, so `LegacyTokenizer` models both.
- The `getPaddedIds` / `getIdOrUnk` pair of the older `JITDetector.kt` is the same as the core copy, so `Detector.GetPaddedIds` and `Detector.GetIdOrUnk` model both.
- File and JSON I/O, logging and threads are left out: `readSamples`, the sample writers, `log`, and `run` with its subprocess and signals. The command line and the IDE plugin are left out too. `StatisticHandler` is left out because its atomic counters exist for concurrent updates.
- `RefactoringExtractor.extract` builds UML models from temporary files. Only its filtering step is modelled, and the detected refactorings are an input.
- The Kotlin `Int` counters are unbounded integers: `newBranch` and the commit numbers in `MethodBranchHandler`. 32-bit wrap-around is not modelled.
- `commitTime` is a string that the source parses with `toLong()` and negates. The model takes it as an integer, so a parse failure and the overflow of negating `Long.MIN_VALUE` are not modelled.
- Detector.GetPaddedIds: `maxCodeLen` and `maxCommentLen` of `EmbeddingConfig` are `nat`, so the exception that `take` and `List(n)` throw on a negative configured size is not modelled; the sizes come from the configuration file.
- Features.GetCodeFeatures: `maxCodeLen` is a `nat`, as is `maxCommentLen` of `Features.GetCommentFeatures`, so the `NegativeArraySizeException` of a negative configured size is not modelled.
- Rebooter.Chunk: `size` is a `nat`, so the `ValueError` that `islice` raises on a negative size is not modelled; the script never calls `chunk`.
- The `DatasetSample` record in `dataset/DatasetSample.kt` lacks the fields that `PostProcessing.kt` passes to it: jump length and method names. The model follows `PostProcessing.kt`.

## Findings

| source | as written | input that shows it | evidently intended | confidence | as-written member | corrected member |
|---|---|---|---|---|---|---|
| rebooter.py:143 | after a round without a termination, `PROCESSED += batch_size` adds 5 even when the final batch is shorter | a queue of one project whose round ends normally: PROCESSED becomes 5 while TOTAL is 1 | add the number of projects in the batch, `len(batch)` | not executed | `Rebooter.ShortBatchOvercounts` | `Rebooter.ProcessedCountsProjects` |
