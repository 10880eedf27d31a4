# Verified model of ai-session-search

This project models the core of `ai-session-search` (batch and streaming text analysis, its accumulator and graph, repeat
mining, calendar filters, correction policies, background refresh reporting, worker-pool creation, Markdown publication)
and two Python tools beside it (the terminal screen tracker of the TUI benchmark and the release version mapping), and
proves properties of that model with Dafny 4.11. `dafny verify dfyconfig.toml` checks all of it.

## How it is organised

| area | modules |
|---|---|
| shared vocabulary | `Wrappers`, `AnalysisErrors`, `Text`, `Utf8`, `Decimals`, `Order`, `Sums` |
| streaming and batch analysis | `Tokens`, `Lines`, `Prose`, `Windows`, `Phrases`, `PhraseFacts`, `StreamingPhrases`, `Documents`, `StreamingDocument` |
| accumulator, relationships, graph | `Relationships`, `AnalysisState`, `Accumulator`, `AnalysisLaws`, `AnalysisOrder`, `SessionGraph`, `GraphLaws`, `AnalysisFacts` |
| repeat mining | `Repeats` |
| terminal screen | `Screen`, `ScreenFacts` |
| background refresh, worker pool | `Refresh`, `Runtime` |
| dates | `Calendar`, `Spans`, `CalendarLaws`, `DateRanges` |
| correction policies | `Corrections`, `PolicyDigest` |
| publication | `Markdown`, `Publication` |
| release versions | `Releases` |

Objects whose methods update their fields are classes proved against specification functions: the streaming phrase
aggregator, the streaming classification text, the prose line filter, the accumulator and the screen tracker. The several
processes of a background refresh and the threads of the worker pool are transition systems whose runs are lists of
atomic steps. Everything else is functions, methods with loops, and lemmas.

Two lemmas read a guard back and are kept as helpers, not as results: `DateRanges.ResolvedInOrder`, which `Resolve`
checks itself, and `Refresh.MutualExclusion`, which follows from electing only on a free lock.

What is assumed of the outside world is small and explicit. `Text.Unicode` is a table of character predicates and a
caseless fold, of which the proofs use only that space and line feed are not alphanumeric, that a space is white space,
and that folded alphanumerics contain no white space. Regular expressions are total functions of the text they search.
`DateRanges.Grammar` holds the recognisers of the date libraries, of which the proofs use only that months are unsigned
and pattern digits are digits. Errors are compared by kind.

## Main results

* **Streaming is batch.** However a session's text is cut into chunks, the streaming path returns the facts, the phrase
  counts or the failure of the joined document, with a ring of recent tokens, a bounded prefix, a pending line and a
  deferred failure flag instead of the text. A document fails exactly when it has the required number of tokens and more
  distinct admitted windows than allowed.
* **Phrase counts say exactly what stands in the document**, in terms of the phrase's own words: `PhraseFacts.WindowIsCounted`,
  `PhraseFacts.CountedWords`, `PhraseFacts.OccurrencesExact`.
* **Analysis is a function of the set of documents.** Acceptance has an exact condition that does not mention order,
  totals are conserved, a failed push is final and changes nothing else, and permuted inputs are both refused or give
  equal results.
* **Scores are sums of weights** in 64 bits, refused exactly when some prefix sum leaves them (`AnalysisFacts.ScoreExact`,
  `AnalysisFacts.FinishedReflects`), and groups, nodes and rankings are stated from the documents' own fields.
* **Graph edges are exactly the unambiguous relations.** They are characterised by the documents alone.
* **Repeat mining keeps exactly the maximal phrases**, and a shorter phrase that survives beside a longer one has strictly
  more support.
* **The screen does not depend on chunking**, for malformed and split control sequences too, and
  every move and erasure is stated cell by cell on the text of its sequence.
* **A lock holder's report survives** every run of other processes. Winning an election does not always publish a report:
  `Refresh.ElectionCanBeHidden` gives a reachable counterexample and `Refresh.ElectionPublishesExactly` the exact condition.
* **One worker pool** is built and used under every interleaving of threads.
* **Calendar spans contain exactly the instants whose date the expression describes.**
* **A correction hit's range cuts exactly the matched text out of the message**; the digest encoding is uniquely decodable
  to a flat list and no further (`PolicyDigest.GroupingsEncodeAlike` is the witness, `PolicyDigest.SameEncodingSameItems`
  the exact condition).
* **Rendered tables read back cell by cell** for any session data.
* **Sort keys of Python versions are ordered as SemVer orders the Cargo spellings.**

Where the code departs from what its comments suggest, the model follows the code: the comment at
`rust/ai-session-search-core/src/corrections.rs:447` says that length prefixes keep different specifications apart,
which holds for flat lists but not for how patterns are grouped into categories; and the length of month 0 is computed as
31 although such a month is refused afterwards (`rust/ai-session-search-core/src/dates.rs:344`, `Spans.MonthZeroRefused`).
The tracker drops empty and non-decimal parameters of a control sequence before counting positions
(`benchmarks/tui_client.py:157`), so a cursor move with an empty row and a column moves to that row instead, where
section 5.4 of ECMA-48 keeps positions: `Screen.ColumnTakenForRow` is the input and `Screen.PositionalExactly` the exact
condition under which the two readings agree.

## Model

| member | source | states |
|---|---|---|
| Tokens.NormalizedTokens | rust/ai-session-search-core/src/analytics.rs:938-952 | the character loop yields the folded maximal alphanumeric runs |
| Tokens.TokensSplit | rust/ai-session-search-core/src/analytics.rs:938-952 | tokenisation is a homomorphism over any separator that is not alphanumeric |
| Tokens.TokensOfWord | rust/ai-session-search-core/src/analytics.rs:938-952 | a run of alphanumeric characters is one token, its caseless fold |
| Tokens.TokensAreWords | rust/ai-session-search-core/src/analytics.rs:938-952 | no token is empty and none contains white space |
| Lines.LineEndings | rust/ai-session-search-core/src/analysis_pipeline.rs:1062-1072 | a line ends at a line feed, at a carriage return with one, or at the end of the text |
| Lines.LinesByFeeds | rust/ai-session-search-core/src/analysis_pipeline.rs:874-902 | `str::lines` is the list of lines closed by line feeds, then the pending one unless it is empty |
| Lines.LinesAfterFirst | rust/ai-session-search-core/src/analysis_pipeline.rs:874-902 | a first line is closed by its feed, one carriage return stripped, and the rest has lines of its own |
| Lines.CompleteLinesGrow | rust/ai-session-search-core/src/analysis_pipeline.rs:874-902 | lines closed by a prefix are never revised by text that follows |
| Prose.ProseLineFilter.Keep | rust/ai-session-search-core/src/analysis_pipeline.rs:1083-1141 | keeps a line exactly when it is no fence, not inside a fence and not code, and flips the fence state exactly on fences |
| Prose.CodeExactly | rust/ai-session-search-core/src/analysis_pipeline.rs:1083-1141 | a line looks like code exactly when it is indented or begins with one of the listed shapes, each spelled out as text |
| Prose.FenceExactly | rust/ai-session-search-core/src/analysis_pipeline.rs:1084-1088 | a line is a fence exactly when three back-quotes follow its white space |
| Prose.KeptExactly | rust/ai-session-search-core/src/analysis_pipeline.rs:1083-1092 | a line is kept exactly after an even number of fence lines, when it is neither fence nor code |
| Prose.ProseOnly | rust/ai-session-search-core/src/analysis_pipeline.rs:1062-1072 | the batch filter yields exactly the kept lines of the text, each with a line feed |
| Prose.ProseTokens | rust/ai-session-search-core/src/analysis_pipeline.rs:1062-1072 | tokens of the filtered text are the tokens of the kept lines, line by line |
| Prose.KeptTokensStep | rust/ai-session-search-core/src/analysis_pipeline.rs:912-928 | one more line appends its tokens exactly when the fence filter keeps it |
| Windows.VisitingOrders | rust/ai-session-search-core/src/analysis_pipeline.rs:930-990 | counting windows token by token equals counting them width by width |
| Windows.TokenMajorExtends | rust/ai-session-search-core/src/analysis_pipeline.rs:930-990 | tokens that follow never reduce the number of distinct phrases |
| Phrases.PhraseDelta | rust/ai-session-search-core/src/analysis_pipeline.rs:1014-1060 | the batch loops, which stop at the first phrase too many, give the counts of all admitted windows or the failure |
| PhraseFacts.OccurrencesExact | rust/ai-session-search-core/src/analysis_pipeline.rs:1014-1060 | in terms of a phrase's own words: it occurs once wherever its words stand, if their number is a width, the first and some word are not excluded, and none is numeric when these are excluded; no other phrase occurs |
| PhraseFacts.WindowIsCounted | rust/ai-session-search-core/src/analysis_pipeline.rs:1030-1058 | every window of a configured width whose words meet these conditions is counted |
| PhraseFacts.CountedWords | rust/ai-session-search-core/src/analysis_pipeline.rs:1030-1058 | the words of every counted phrase meet these conditions |
| PhraseFacts.BelowGate | rust/ai-session-search-core/src/analysis_pipeline.rs:1014-1029 | a document with fewer tokens than required has no phrases and no failure |
| PhraseFacts.DeltaCountsWindows | rust/ai-session-search-core/src/analysis_pipeline.rs:1014-1060 | a phrase of `w` words is counted once for each admitted window of `w` tokens that reads like it, if `w` is a configured width, and never otherwise |
| PhraseFacts.RefusedExactly | rust/ai-session-search-core/src/analysis_pipeline.rs:1014-1060 | a document fails exactly when it reaches the token gate and has more distinct admitted phrases than allowed |
| PhraseFacts.DeltaPhrases | rust/ai-session-search-core/src/analysis_pipeline.rs:1014-1060 | every counted phrase occurs and has as many words as some configured width |
| StreamingPhrases.DeltaByTokens | rust/ai-session-search-core/src/analysis_pipeline.rs:837-843 | the batch verdict is the streaming verdict on the same tokens, and fails exactly on documents over their bound |
| StreamingPhrases.TokensAtEnd | rust/ai-session-search-core/src/analysis_pipeline.rs:992-1012 | tokens committed while streaming, with those of the pending line, are the tokens of the joined document |
| StreamingPhrases.CommittedGrows | rust/ai-session-search-core/src/analysis_pipeline.rs:874-902 | a chunk only adds committed tokens, and the joiner keeps tokens of different chunks apart |
| StreamingPhrases.DoomedGrows | rust/ai-session-search-core/src/analysis_pipeline.rs:837-843 | a document over its bound stays over it whatever follows, so failing early is failing exactly |
| StreamingPhrases.StreamingPhraseAggregator.PushToken | rust/ai-session-search-core/src/analysis_pipeline.rs:930-990 | one token keeps ring, count, counts and deferred flag equal to their functions of all tokens, or the document is already over its bound |
| StreamingPhrases.StreamingPhraseAggregator.PushChunk | rust/ai-session-search-core/src/analysis_pipeline.rs:874-902 | any chunk keeps pending line, fence state and tokens equal to their functions of the joined text, or the document is already over its bound |
| StreamingPhrases.StreamingPhraseAggregator.Finish | rust/ai-session-search-core/src/analysis_pipeline.rs:992-1012 | returns exactly the phrase counts, or the failure, of the joined text |
| AnalysisFacts.VerdictReadsTarget | rust/ai-session-search-core/src/analysis_pipeline.rs:1166-1189 | a rule's verdict is its test on the field of its target, and a rule for any field matches exactly when it would for one of them |
| AnalysisFacts.PrefixExact | rust/ai-session-search-core/src/analysis_pipeline.rs:1191-1198 | the bounded text is the longest prefix within the bound |
| AnalysisFacts.ClassifiesInOrder | rust/ai-session-search-core/src/analysis_pipeline.rs:410-421 | matches are those of the rules that match, with their own fields, in the order of the rules |
| Documents.ClassifyRetained | rust/ai-session-search-core/src/analysis_pipeline.rs:706-754 | classification of the retained text equals classification of the whole text |
| Documents.RetainedSuffices | rust/ai-session-search-core/src/analysis_pipeline.rs:1166-1198 | rules see no difference between two texts with the same bounded prefix |
| StreamingDocument.JoinAllExact | rust/ai-session-search-core/src/analysis_pipeline.rs:756-765 | the joined text is the chunks with single spaces between them, from the first that is not empty |
| StreamingDocument.ClassificationText.PushChunk | rust/ai-session-search-core/src/analysis_pipeline.rs:720-746 | the retained text stays nothing, the bounded prefix with joiners counted, or all of the joined text |
| StreamingDocument.StreamingDocumentText.PushChunk | rust/ai-session-search-core/src/analysis_pipeline.rs:804-818 | one chunk keeps every flag and both streams in step with the chunks so far |
| StreamingDocument.StreamingDocumentText.Finish | rust/ai-session-search-core/src/analysis_pipeline.rs:821-834 | returns the facts and phrases of the joined document, or its failure |
| StreamingDocument.OverflowStays | rust/ai-session-search-core/src/analysis_pipeline.rs:804-818 | once a chunk fails, the joined document of all chunks fails with the same kind |
| StreamingDocument.StreamDocument | rust/ai-session-search-core/src/analysis_pipeline.rs:446-513 | for every list of chunks streaming returns what the joined document gives, the failure kind included; an interrupted stream fails with the kind its texts call for |
| AnalysisState.StreamedContribution | rust/ai-session-search-core/src/analysis_pipeline.rs:476-513 | a streamed session contributes exactly what its joined document contributes: matches, counts and flags |
| Accumulator.AnalysisAccumulator.PushDocument | rust/ai-session-search-core/src/analysis_pipeline.rs:435-444 | all of a document enters the state, or nothing changes but the poison |
| Accumulator.AnalysisAccumulator.PushSessionTextStream | rust/ai-session-search-core/src/analysis_pipeline.rs:458-474 | streaming a session leaves the state and result of pushing its joined document; an interrupted stream only poisons it |
| Accumulator.AnalysisAccumulator.MergeSession | rust/ai-session-search-core/src/analysis_pipeline.rs:543-623 | every check precedes every change, so a failing merge changes nothing |
| Accumulator.AnalysisAccumulator.Finish | rust/ai-session-search-core/src/analysis_pipeline.rs:626-693 | resolves hints and ranks the vocabulary, or fails when poisoned or when a rule captures a blank parent |
| AnalysisFacts.ScoreExact | rust/ai-session-search-core/src/analysis_pipeline.rs:553-557 | a score is the sum of the weights, and there is none exactly when a total on the way leaves 64 bits |
| AnalysisFacts.GoodExact | rust/ai-session-search-core/src/analysis_pipeline.rs:515-557 | a document passes its own checks exactly when its id is not blank, its phrases are within their bound and its weights add up |
| AnalysisFacts.AcceptedReflects | rust/ai-session-search-core/src/analysis_pipeline.rs:610-621 | every accepted session carries its document's fields, matches, score, counts and whether it has text |
| AnalysisFacts.FinishedReflects | rust/ai-session-search-core/src/analysis_pipeline.rs:610-621 | and so does every session of a finished analysis |
| AnalysisFacts.PushFailsExactly | rust/ai-session-search-core/src/analysis_pipeline.rs:515-574 | which failure a push reports: the first check that applies |
| AnalysisFacts.MergeFailure | rust/ai-session-search-core/src/analysis_pipeline.rs:558-588 | merging fails for too many phrases, or else exactly for a count that leaves 64 bits |
| AnalysisFacts.RankingExact | rust/ai-session-search-core/src/analysis_pipeline.rs:680-688 | the vocabulary falls by occurrences, then documents, then words, then in text order, and lists every phrase |
| AnalysisFacts.LexExact | rust/ai-session-search-core/src/analysis_pipeline.rs:680-688 | text order: a beginning first, otherwise the first different character decides |
| Accumulator.Analyze | rust/ai-session-search-core/src/analysis_pipeline.rs:388-397 | pushing all documents and finishing gives the state of all of them, or the first failure |
| Accumulator.FirstFailureIsFinal | rust/ai-session-search-core/src/analysis_pipeline.rs:433-444 | over any list of pushes the accumulator holds what precedes the first failure and is poisoned exactly after it |
| AnalysisLaws.MergeAllTotals | rust/ai-session-search-core/src/analysis_pipeline.rs:558-603 | merging succeeds exactly when all totals fit, and then gives the sums |
| AnalysisLaws.TotalsPermute | rust/ai-session-search-core/src/analysis_pipeline.rs:558-603 | totals, the phrase bound and the 64-bit checks do not depend on the order of documents |
| AnalysisOrder.AcceptedExactly | rust/ai-session-search-core/src/analysis_pipeline.rs:515-623 | a list is accepted exactly when every document is good, ids are distinct and totals fit; the state then describes the documents |
| AnalysisOrder.Conservation | rust/ai-session-search-core/src/analysis_pipeline.rs:558-603 | in every reachable state occurrences are the sum over documents, the document count is the number of documents with the phrase, words is the width of every window that reads like the phrase, and the vocabulary is within its bound |
| AnalysisOrder.OrderIndependent | rust/ai-session-search-core/src/analysis_pipeline.rs:385-397 | permuted inputs are both refused, or finish with equal results |
| Relationships.CandidatesExact | rust/ai-session-search-core/src/analysis_pipeline.rs:654-661 | candidates are exactly the other sessions with the title, strictly ascending |
| Relationships.ResolutionExact | rust/ai-session-search-core/src/analysis_pipeline.rs:662-670 | resolved exactly when one other session has the title, ambiguous with the full ascending list exactly when several have it, unresolved exactly when none has |
| Relationships.CollectHints | rust/ai-session-search-core/src/analysis_pipeline.rs:639-677 | hints are collected in rule order, or the first failure is returned |
| Relationships.HintsInRuleOrder | rust/ai-session-search-core/src/analysis_pipeline.rs:639-677 | a further rule adds its hint at the end, or its failure when the rules before it have none |
| GraphLaws.ResolvedExactly | rust/ai-session-search-core/src/analysis_pipeline.rs:626-678 | every returned session has exactly the hints its rules call for, resolved against the titles of the other documents |
| GraphLaws.GraphExact | rust/ai-session-search-core/src/analysis_pipeline.rs:1316-1388 | edges are exactly the relations whose parent title belongs to one other session, strictly ascending, never self-loops, with both ends among the nodes |
| GraphLaws.FinishFailsExactly | rust/ai-session-search-core/src/analysis_pipeline.rs:643-653 | finishing fails exactly when some rule matches some title and captures only white space |
| AnalysisFacts.NodesExact | rust/ai-session-search-core/src/analysis_pipeline.rs:1323-1344 | one node for each document, with the document's fields, matches and score |
| AnalysisFacts.EdgesInOrder | rust/ai-session-search-core/src/analysis_pipeline.rs:1346-1364 | edges come by source, target, kind and rule without repetition |
| AnalysisFacts.GroupsExact | rust/ai-session-search-core/src/analysis_pipeline.rs:1366-1387 | groups are exactly the trimmed working directories and repository roots several documents share, with these documents' ids |
| AnalysisFacts.GroupsInOrder | rust/ai-session-search-core/src/analysis_pipeline.rs:1366-1387 | groups come by dimension and key |
| SessionGraph.Project | rust/ai-session-search-core/src/analysis_pipeline.rs:1316-1388 | one node a session, the resolved hints as edges, and a group for exactly every trimmed value that several sessions share |
| Repeats.Find | rust/ai-session-search-core/src/analytics.rs:927-931 | the first occurrence of a marker, or none exactly when there is none |
| Repeats.PhrasesInMessage | rust/ai-session-search-core/src/analytics.rs:906-921 | the nested loops collect exactly the informative windows of the allowed widths |
| Repeats.MinedExactly | rust/ai-session-search-core/src/analytics.rs:906-972 | in terms of a phrase's own words: when exactly a message has it |
| Repeats.MarkedRequest | rust/ai-session-search-core/src/analytics.rs:923-931 | the trimmed text of the first marked request is mined instead of the message |
| Repeats.UnmarkedMessage | rust/ai-session-search-core/src/analytics.rs:923-931 | a message without both markers in order is mined whole |
| Repeats.SupportAntimonotone | rust/ai-session-search-core/src/analytics.rs:906-972 | a message with a phrase has every mined phrase that reads inside it |
| Repeats.RemoveEqualSupportContainedPhrases | rust/ai-session-search-core/src/analytics.rs:881-893 | the loop over candidates is the greedy filter |
| Repeats.GreedyKeepsMaximal | rust/ai-session-search-core/src/analytics.rs:881-904 | on a sorted list the greedy filter keeps exactly the maximal candidates, and every dropped one reads inside a kept one with the same support |
| Repeats.ReportedExactly | rust/ai-session-search-core/src/analytics.rs:828-847 | of the ranked candidates, the reported phrases are exactly those with enough support that no longer phrase with the same support contains |
| Repeats.RepeatPhraseGroups | rust/ai-session-search-core/src/analytics.rs:815-879 | the groups are the reportable phrases in rank order with their supports, cut to the first groups when a bound is given |
| Repeats.ReportInOrder | rust/ai-session-search-core/src/analytics.rs:838-845 | reports come by falling support, then words, then in text order |
| Repeats.InsideExact | rust/ai-session-search-core/src/analytics.rs:894-904 | a phrase is inside another when the other is it with words before or after it |
| Repeats.AnswerUnique | rust/ai-session-search-core/src/analytics.rs:815-879 | the specification leaves mining exactly one answer |
| Repeats.GroupExact | rust/ai-session-search-core/src/analytics.rs:852-877 | a group's matches are the number of messages that have its phrase, its sessions the number of their sessions, and its examples the earliest of them |
| Repeats.GroupsCut | rust/ai-session-search-core/src/analytics.rs:847-850 | the groups are those of the first reports, up to the limit, or of all when it is 0 |
| Repeats.ShorterHasMoreSupport | rust/ai-session-search-core/src/analytics.rs:828-904 | when one reported phrase reads inside another, a strict superset of messages has it |
| Screen.ItemStable | benchmarks/tui_client.py:123-154 | once the start of a text can be read, more text does not change the reading |
| Screen.RunConcat | benchmarks/tui_client.py:123-154 | feeding a text and then more gives what feeding both together gives |
| Screen.ChunksDoNotMatter | benchmarks/tui_client.py:123-154 | for every way of cutting a text the grid, the cursor and the pending text come out the same |
| Screen.Run | benchmarks/tui_client.py:123-154 | the grid keeps its size, the cursor its bounds, and only an incomplete control sequence is held back |
| Screen.ReadsWellFormed | benchmarks/tui_client.py:80 | every control sequence of the format in section 5.4 of ECMA-48 is read as one item with exactly its parameters and final byte |
| Screen.UnknownSequencesInvisible | benchmarks/tui_client.py:156-183 | styling and other unknown sequences are consumed and change nothing |
| Screen.PlainTextPrinted | benchmarks/tui_client.py:148-152 | plain text that fits overwrites exactly its cells and moves the cursor past it |
| Screen.PositionalExactly | benchmarks/tui_client.py:156-162 | dropping pieces that are not numbers reads every parameter at its position exactly when each number after the first such piece is one |
| Screen.CursorMovePositional | benchmarks/tui_client.py:158-162 | under that condition a cursor move goes to the row and column given, clamped |
| Screen.ColumnTakenForRow | benchmarks/tui_client.py:156-162 | an empty row and column 5 move the cursor to row 5, where reading by position moves it to column 5 |
| ScreenFacts.RelativeMoves | benchmarks/tui_client.py:175-183 | A, B, C and D move up, down, right and left by the number given or one, never off the grid |
| ScreenFacts.AbsoluteMove | benchmarks/tui_client.py:158-162 | H goes to the row and column given, or the nearest cell |
| ScreenFacts.HomeMove | benchmarks/tui_client.py:158-162 | H without parameters goes to the first cell |
| ScreenFacts.EraseToEndOfRow | benchmarks/tui_client.py:163-165 | K blanks exactly the cells from the cursor to the end of its row |
| ScreenFacts.EraseToEndOfScreen | benchmarks/tui_client.py:166-170 | J blanks these and exactly the rows below |
| ScreenFacts.ControlCharacters | benchmarks/tui_client.py:142-154 | CR goes to the first column, LF down one row within the grid, other control characters do nothing |
| ScreenFacts.SequenceBytes | benchmarks/tui_client.py:80 | the bytes of a control sequence are those of section 5.4 of ECMA-48 |
| ScreenFacts.Fresh | benchmarks/tui_client.py:110-113 | a new tracker shows a blank screen with the cursor in the first cell |
| ScreenFacts.EscapeDropped | benchmarks/tui_client.py:133-139 | an escape that starts no control sequence is dropped alone |
| Screen.ScreenTracker.Csi | benchmarks/tui_client.py:156-183 | cursor moves and erasures do to the fields what the specification says, with clamping |
| Screen.ScreenTracker.Feed | benchmarks/tui_client.py:123-154 | the object ends as running its pending text followed by the new text ends |
| Refresh.OthersPreserve | rust/ai-session-search-core/src/background_refresh.rs:410-444 | while the lock is held no step of another process changes a running report of that database |
| Refresh.OthersPreserveExactly | rust/ai-session-search-core/src/background_refresh.rs:410-444 | while the lock is held another process's step leaves a running report alone exactly when it writes none or acts on the same database |
| Refresh.RunningReportFrozen | rust/ai-session-search-core/src/background_refresh.rs:410-444 | over every run such a report stays exactly as it is while its process takes no step and the lock stays held |
| Refresh.HolderReportSurvives | rust/ai-session-search-core/src/background_refresh.rs:118-188 | the holder's running report stays the holder's running report through every run until the lock is given up |
| Refresh.BusyContenderSilent | rust/ai-session-search-core/src/background_refresh.rs:182-186 | a contender that is never elected and finds the lock busy changes neither report nor locks, in every run |
| Refresh.ElectionPublishesExactly | rust/ai-session-search-core/src/background_refresh.rs:124-127 | a newly elected process publishes its report exactly when the file holds no running report of another process for the database |
| Refresh.ElectionCanBeHidden | rust/ai-session-search-core/src/background_refresh.rs:433-443 | a reachable run in which a dead process's report hides its successor's |
| Refresh.ReadinessExact | rust/ai-session-search-core/src/background_refresh.rs:195-257 | exact conditions for indexing, not started and failed; a retry interval is given exactly when a caller should wait; a newer success hides older reports |
| Refresh.ReadinessFreshOrPostponed | rust/ai-session-search-core/src/background_refresh.rs:195-257 | exact conditions for up to date, postponed and a failed probe, and how long a caller should wait |
| Refresh.ReadersSeeOutcome | rust/ai-session-search-core/src/background_refresh.rs:152-186 | once an outcome is published readers are told just that, and the report carries its process, times and counts |
| Refresh.RunningReportsExact | rust/ai-session-search-core/src/background_refresh.rs:123-140 | published elections and progress name the process, its database, its start and the counts so far |
| Refresh.ReadersSeeIndexing | rust/ai-session-search-core/src/background_refresh.rs:195-257 | from a published election until the lock is given up every reader sees indexing |
| Refresh.NoHolderNotIndexing | rust/ai-session-search-core/src/background_refresh.rs:297-312 | without a lock holder no reader sees indexing |
| Runtime.SoundStep | rust/ai-session-search-core/src/runtime.rs:42-70 | every step of every thread keeps the lock exclusive, an unset cell for a built pool, and every operation on the pool that is set |
| Runtime.OnePool | rust/ai-session-search-core/src/runtime.rs:42-70 | over every interleaving at most one pool is built and set, setting never fails, and every successful call ran on that pool |
| Runtime.OnePoolFromStart | rust/ai-session-search-core/src/runtime.rs:42-70 | in particular over every run that starts without threads |
| Calendar.PredIsDayBefore | rust/ai-session-search-core/src/dates.rs:344-356 | the predecessor of a date is the day before, across months and years |
| Calendar.DateOf | rust/ai-session-search-core/src/dates.rs:319-322 | every day number has a calendar date with that number |
| Calendar.DateOfDayNumber | rust/ai-session-search-core/src/dates.rs:319-322 | and that date is the only one |
| Spans.DaysInMonthExact | rust/ai-session-search-core/src/dates.rs:344-356 | the first day of the next month less one gives the Gregorian length, except for the last month of the last year |
| Spans.DaySpanExact | rust/ai-session-search-core/src/dates.rs:310-315 | a day span is the whole day, and exists exactly for dates of representable years |
| Spans.MonthSpanExact | rust/ai-session-search-core/src/dates.rs:324-330 | a month span is the whole month, and exists exactly for months whose successor is representable |
| Spans.MonthZeroRefused | rust/ai-session-search-core/src/dates.rs:324-356 | the length of month 0 is computed as 31, and every span of it is refused |
| Spans.YearsSpanExact | rust/ai-session-search-core/src/dates.rs:332-338 | spans of years are whole years, and exist exactly when both ends are representable |
| Spans.DaySpanOfExact | rust/ai-session-search-core/src/dates.rs:319-322 | a relative date becomes the UTC day that contains the instant, for every representable instant |
| CalendarLaws.SpansExact | rust/ai-session-search-core/src/dates.rs:249-260 | a span of any precision exists exactly when its period is representable and contains exactly the instants whose date the expression describes |
| CalendarLaws.SeasonCovers | rust/ai-session-search-core/src/dates.rs:291-300 | a season is its three whole months, winter across the end of the year |
| CalendarLaws.DayXExact | rust/ai-session-search-core/src/dates.rs:264-289 | a day with an unspecified digit has a span exactly when some day matches, from the first to the last matching day |
| CalendarLaws.DaysAbut | rust/ai-session-search-core/src/dates.rs:310-315 | consecutive days abut by one nanosecond |
| CalendarLaws.MonthsAbut | rust/ai-session-search-core/src/dates.rs:324-330 | consecutive months abut, December and January too |
| CalendarLaws.YearsAbut | rust/ai-session-search-core/src/dates.rs:332-338 | consecutive years, decades and centuries abut |
| CalendarLaws.SpanForward | rust/ai-session-search-core/src/dates.rs:249-260 | no period's span is reversed |
| DateRanges.DurationExact | rust/ai-session-search-core/src/dates.rs:155-173 | a duration reaches back exactly its length and is refused exactly when that is before the earliest instant or its digits are not ASCII |
| DateRanges.UnitsExact | rust/ai-session-search-core/src/dates.rs:159-167 | each unit reaches back its own number of seconds, and nothing else is a unit |
| DateRanges.UnitsAgree | rust/ai-session-search-core/src/dates.rs:159-167 | 24 hours are a day, 60 minutes an hour, a week 7 days, a month 30 and a year 365 days |
| DateRanges.UnitsIgnoreCase | rust/ai-session-search-core/src/dates.rs:159 | a unit in capitals is the unit |
| DateRanges.ReadingOrder | rust/ai-session-search-core/src/dates.rs:144-246 | which of the readings of a token decides, for every grammar |
| DateRanges.PartialExact | rust/ai-session-search-core/src/dates.rs:194-206 | an hour or minute of a date exists exactly when it is one, and contains exactly its instants |
| DateRanges.InstantIsItsPeriod | rust/ai-session-search-core/src/dates.rs:186-192 | an exact instant is its own period |
| DateRanges.WhenRefusedExactly | rust/ai-session-search-core/src/dates.rs:95-105 | `--when` refuses a token exactly when it has no period or is an interval whose first date starts after its last date ends |
| DateRanges.WhenIsSinceAndUntil | rust/ai-session-search-core/src/dates.rs:95-126 | a token as `--when` is that token as both `--since` and `--until` |
| DateRanges.OnlyIntervalsReverse | rust/ai-session-search-core/src/dates.rs:144-246 | a token's period is reversed exactly when it is read as an interval whose first date starts after its last date ends |
| Corrections.CharsBeforePrefix | rust/ai-session-search-core/src/corrections.rs:286-290 | counting characters before a byte offset undoes measuring a prefix in bytes |
| Corrections.ClassifyFirst | rust/ai-session-search-core/src/corrections.rs:276-300 | the first hit in the order policy, rule, fragment is returned, and none exactly when nothing matches |
| Corrections.RangeIsMatch | rust/ai-session-search-core/src/corrections.rs:283-297 | a hit's absolute character range lies in its fragment and cuts exactly the matched text out of the message |
| Corrections.ClassifiedRange | rust/ai-session-search-core/src/corrections.rs:350-362 | every classified hit's range cuts its matched text out of the message |
| Corrections.ClassifyWhole | rust/ai-session-search-core/src/corrections.rs:267-269 | on a whole message the first rule that matches it decides, with its exact range |
| Corrections.Compile | rust/ai-session-search-core/src/corrections.rs:142-235 | compiles exactly sound documents, one rule a category in declared order, and otherwise names the first policy-level fault, or the first fault of the first faulty category |
| Corrections.FirstFaultExact | rust/ai-session-search-core/src/corrections.rs:168-222 | which fault of a category is named: blank name, then taken name, then no patterns, then its patterns, then their combination |
| Corrections.CombinedExact | rust/ai-session-search-core/src/corrections.rs:205 | patterns are combined case-insensitively as alternatives in their order |
| Corrections.PatternFaultExact | rust/ai-session-search-core/src/analysis_pipeline.rs:1150-1164 | a pattern is fine when it is not blank, compiles and does not match the empty text |
| Corrections.RangeSaturates | rust/ai-session-search-core/src/corrections.rs:286-290 | positions saturate at the largest index |
| Corrections.CompileCategory | rust/ai-session-search-core/src/corrections.rs:168-222 | one category compiles exactly when it is sound and its name is new |
| Utf8.EncodeInjective | rust/ai-session-search-core/src/corrections.rs:470-473 | no two texts have the same UTF-8 bytes |
| PolicyDigest.UnframeFrames | rust/ai-session-search-core/src/corrections.rs:468-484 | decoding the length-prefixed encoding gives the list of values back |
| PolicyDigest.CanonicalDigestInput | rust/ai-session-search-core/src/corrections.rs:468-484 | the appending loops produce the encoding of the flat list |
| PolicyDigest.LayoutExact | rust/ai-session-search-core/src/corrections.rs:468-484 | the encoding reads back as schema version, name, version, and then each category as its name and its patterns |
| PolicyDigest.SameEncodingSameItems | rust/ai-session-search-core/src/corrections.rs:447-484 | two policies encode alike exactly when schema version, name, version and flat list agree |
| PolicyDigest.SameShapeSamePolicy | rust/ai-session-search-core/src/corrections.rs:447-484 | with equal pattern counts, policies encode alike only when they are equal |
| PolicyDigest.GroupingsEncodeAlike | rust/ai-session-search-core/src/corrections.rs:447-450 | different groupings of patterns into categories can encode alike |
| PolicyDigest.LeastByteFirst | rust/ai-session-search-core/src/corrections.rs:471 | lengths are written least byte first |
| PolicyDigest.CanonicalDigestInputLen | rust/ai-session-search-core/src/corrections.rs:451-466 | the counted length is the length of the encoding, saturated |
| Markdown.EscapeIsMap | rust/ai-session-search-core/src/analysis_publication.rs:416-422 | the replacements in sequence act on every character on its own |
| Markdown.UnescapeEscape | rust/ai-session-search-core/src/analysis_publication.rs:416-422 | reading escapes left to right gives the value back, with line ends as spaces |
| Markdown.EscapeSpelled | rust/ai-session-search-core/src/analysis_publication.rs:416-422 | backslash, bar and backtick get a backslash, line ends become spaces, and other characters stay |
| Markdown.EscapeSafe | rust/ai-session-search-core/src/analysis_publication.rs:416-422 | an escaped value has no line end, no unescaped pipe and no dangling backslash |
| Markdown.RowReadsBack | rust/ai-session-search-core/src/analysis_publication.rs:340-347 | a row of safe cells has exactly one unescaped pipe more than cells and reads back as its cells |
| Markdown.RowsReadBack | rust/ai-session-search-core/src/analysis_publication.rs:319-348 | a table body reads back as one line for each row and exactly its cells |
| Publication.RenderIndexTable | rust/ai-session-search-core/src/analysis_publication.rs:305-349 | every session once, by descending score and then id, as one row |
| Publication.IndexReadsBack | rust/ai-session-search-core/src/analysis_publication.rs:305-349 | for any data every index row reads back as its five cells: rank, score, and the title with id, provider and classifications |
| Publication.IntTextReadsBack | rust/ai-session-search-core/src/analysis_publication.rs:338-346 | a score cell spells its score, with a minus sign exactly for negative ones |
| Publication.IntTextInjective | rust/ai-session-search-core/src/analysis_publication.rs:338-346 | no two scores are written alike |
| Publication.IndexInOrder | rust/ai-session-search-core/src/analysis_publication.rs:312-318 | scores never rise down the index, and sessions of one score come by id |
| Publication.ClassificationsListed | rust/ai-session-search-core/src/analysis_publication.rs:326-337 | the classification cell lists every dimension and label once in order, or a dash |
| Publication.HeadingExact | rust/ai-session-search-core/src/analysis_publication.rs:320-325 | a session is headed by its title, or its id when it has none or an empty one |
| Publication.KindNames | rust/ai-session-search-core/src/analysis_publication.rs:391 | the relationships by name |
| Publication.RenderTaxonomy | rust/ai-session-search-core/src/analysis_publication.rs:351-381 | one row for exactly every classification in use, in order, with its sessions ascending |
| Publication.TaxonomyReadsBack | rust/ai-session-search-core/src/analysis_publication.rs:351-381 | for any data every taxonomy row reads back as its three cells, each unescaping to its value, the list of sessions included |
| Publication.RenderGraph | rust/ai-session-search-core/src/analysis_publication.rs:383-414 | one row for each edge and each group, in order |
| Publication.GraphReadsBack | rust/ai-session-search-core/src/analysis_publication.rs:383-414 | for any graph relationships read back as four cells and groups as three, each unescaping to its value |
| Releases.MatchExact | scripts/release_versions.py:10-13 | an accepted version is spelled back by its groups, which are numerals without leading zeros |
| Releases.MatchComplete | scripts/release_versions.py:10-13 | every canonical spelling is accepted with exactly its groups |
| Releases.CargoIsSemVer | scripts/release_versions.py:17-28 | the Cargo spelling is a SemVer version with the same numbers and the phase as its pre-release |
| Releases.SpellingExact | scripts/release_versions.py:10-41 | a release and its three kinds of pre-release as text: the Python spelling, the Cargo spelling and the sort key |
| Releases.OrderPreserved | scripts/release_versions.py:34-41 | sort keys are ordered exactly as section 11 of SemVer 2.0.0 orders the Cargo spellings |
| Releases.MappingInjective | scripts/release_versions.py:17-41 | different versions have different sort keys and different Cargo spellings |
| Decimals.DecimalRoundTrip | scripts/release_versions.py:34-41 | writing and reading a number gives it back, without leading zeros |
| Decimals.CanonicalRoundTrip | scripts/release_versions.py:34-41 | reading and writing a numeral without leading zeros gives it back |

## Left out

- Windows.VisitingOrders: counts are natural numbers, because the two paths would leave 64 bits in different orders; the checked 64-bit additions of `merge_session` are modelled.
- AnalysisOrder.OrderIndependent: both orders fail together, but which failure is reported first may differ.
- Refresh.HolderReportSurvives: runs are of processes on one database; databases with one cache directory share the report file, and `Refresh.OthersPreserveExactly` says when a process of another database replaces the report.
- Refresh.ReadinessExact: reads the success marker, the file and the lock as values; that they are read one after the other is not modelled beyond the probe coming last.
- Screen.ScreenTracker.Feed: text is already decoded, and the limit of Python on the number of digits of an integer is not modelled.
- Publication.RenderIndexTable: the receipt summary above the table is not modelled.
- DateRanges.OnlyIntervalsReverse: what the EDTF, RFC 3339 and natural-language libraries accept is abstract; instants have no leap seconds.
- Repeats.RepeatPhraseGroups: examples are message indices; previews and context commands are not modelled.
- SessionGraph.Project: creation and update times of a node are not modelled.
- Policy digests and result digests are abstract; SHA-256, JSON and TOML are not modelled.
- Compilation of analysis and phrase policies, beyond the facts it guarantees, because its checks are independent of each other.
- Databases, the indexer, locks and atomic files themselves: the lock is mutual exclusion, the report file one cell written atomically, a crash releases the lock.
- Runtime.OnePool: scheduling inside the worker pool and panics of operations are not modelled.
- The publication plan's file list and its atomic directory move, because they depend on file-system code outside the model.
- Shortening of error messages to their display bound, because each is a prefix.
- Command-line parsing, diagnostics, packaging, benchmarks and bindings.
