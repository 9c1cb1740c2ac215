# Verified models of the moe-sovereign components

moe-sovereign is a Python orchestrator for language-model requests. This project models its
self-contained components in Dafny and proves what they guarantee: a vector store whose table and
index must agree, semantic retrieval, a backwards log reader, JSON and history compression, a node
watchdog, check-then-deduct budgets, a message-format translation, the wired request pipeline,
backup retention, node repinning, stream translation and window budgets.

Code that changes state step by step is modelled by classes and methods with loops; each is proved
equal to a function of its inputs or of its old state, and the guarantees are lemmas about those
functions, mostly over whole runs. External services are parameters: the vector distance and the
embedder, fingerprints, regular expressions, JSON parsing and the clock are arbitrary functions or
inputs, and the nearest-neighbour index may give any correct answer, ties included.

| file | component |
|---|---|
| `Prelude.dfy` | slices, order-preserving filtering, stable sort, counting |
| `VectorStore.dfy`, `NearestQuery.dfy`, `EdgeVectorStore.dfy` | document table, label index, filtered nearest search |
| `EmbeddingCache.dfy`, `SemanticMemory.dfy` | bounded embedding cache; multi-phase and cross-session retrieval, merging |
| `ConversationLog.dfy`, `LogPages.dfy` | chunked backwards reader; paging over rotated files |
| `Json.dfy`, `ContextCompressor.dfy`, `HistoryTruncation.dfy` | JSON reductions, content compression, history limits |
| `Watchdog.dfy`, `WatchdogRuns.dfy`, `AlertDelivery.dfy` | monitor object, alert guarantees over runs, alert list and escalation |
| `TeamBudget.dfy` | budget rows and interleavings of checks and deductions |
| `MessageConversion.dfy`, `NativeStream.dfy` | Anthropic to OpenAI messages; native stream to deltas |
| `PipelineGraph.dfy` | the wired pipeline as a step system |
| `BackupRetention.dfy`, `NodePins.dfy`, `ContextBudget.dfy` | retention job, node references in templates, window budgets |

## Where the code and its own description differ

The models follow the code. In these places a promise in a docstring or comment is not what the code
does; each has a lemma with the exact condition under which it is, or a concrete counterexample.

- The vector query is meant to return the n nearest matching documents. Fetching `8 * n` candidates
  achieves that, for a given distance and query, exactly when the wanted documents and the rejected
  ones no farther than the last of them fit those candidates (`QueryIsExact`), and whatever the
  distance exactly when all rejected documents fit beside the wanted ones (`OverfetchIsExact`).
- The backwards reader is meant to return the last lines. It counts blank lines too, reads in chunks
  and may begin inside a line: it is right exactly when it has reached the start of the file, enough
  non-blank lines lie behind the first line it has read, or that line makes up for the rest
  (`ReaderIsExact`). At the chunk size in use
  the tail of a long line can come back as a line (`LongLineIsCut`).
- The reader breaks lines at characters the writer leaves raw, such as U+2028. The last n written
  lines are read back exactly when none of them is blank or holds such a character
  (`WrittenLogReadBack`); whole reads do not break there.
- A page of the log is right exactly when it lies behind the end of the log or every plain file
  covers its share of it; malformed lines beyond one page can cost entries (`PageIsExact`).
- The JSON compressor's length invariant holds exactly for positive limits (`CompressJsonBound`); the
  router's "version within the limit" does not hold for cut code and cut prose
  (`CompressMessageBound`).
- Pruning is described as recursive removal of empty values, but it makes one pass; that is enough
  exactly for values without hollow fields (`OnePassIsEnough`). Shortening an array lengthens the
  text exactly when the dropped items are shorter than the note (`ShortenLengthens`).
- `_truncate_history` documents a maximum of total characters; the total is one more exactly when a
  message was cut, and it fails exactly when the message to be cut is a list of blocks
  (`TruncateMeaning`).
- The merge of retrieval results documents a cap on the total; it holds exactly when the current
  turns alone respect it (`MergeMeaning`).
- A call of the embedding cache can fail with a missing key. It answers exactly when the needed texts
  survive the storing of the misses (`CallIsExact`), which repeating a new text can prevent
  (`RepeatedMissCanFail`).
- The budget check is called with zero tokens by the request path (services/auth.py:251), which
  raises the sharp overshoot bound from `(k - 1) * m` to `k * m` tokens (`OvershootIsReached`).
- In message translation, a message with a tool call loses its tool results and its images, and one
  with tool results and no call loses its texts and images (`ToolResultsSurvive`,
  `TextsAndImagesSurvive`).
- Repinning replaces references to one node and nothing else exactly when no pin it visits extends
  the dead name (`RepinIsRename`, with an example in `RepinHarmsLongerNames`). It does not reach
  strings that are list items, template ids, names or descriptions, which the scan reports
  (`RepinTemplateIsExact`).

## Model

| member | source | states |
|---|---|---|
| VectorStore.NextLabel | edge_vector_store.py:128-130 | the new label is above every label in the table, and positive if they are |
| VectorStore.AddKeepsCapacity | edge_vector_store.py:171-174 | growing a full index first makes every insertion legal and never leaves the index over capacity |
| VectorStore.UpsertKeepsAgreement | edge_vector_store.py:165-179 | one upsert keeps table and index describing the same documents |
| VectorStore.UpdateKeepsAgreement | edge_vector_store.py:185-194 | one metadata update keeps the agreement and does not touch the index |
| VectorStore.DeleteKeepsAgreement | edge_vector_store.py:199-208 | one deletion keeps the agreement |
| VectorStore.RunRefinesPlain | edge_vector_store.py:152-210 | over every sequence of upserts, updates and deletes the table equals a plain dictionary and table and index agree |
| VectorStore.LabelsAreStable | edge_vector_store.py:166-169 | a document keeps its label until it is deleted, whatever else is written |
| VectorStore.HighestLabelIsReissued | edge_vector_store.py:128-130 | when exactly a deleted highest label is given out again |
| VectorStore.ReissuedLabelIsRevived | edge_vector_store.py:169-174 | a reissued label is live with the new vector, no other slot changes and the index does not grow |
| NearestQuery.SelectIsRanked | edge_vector_store.py:275-295 | a query returns at most n different unflagged matching documents in non-decreasing distance |
| NearestQuery.SelectIsComplete | edge_vector_store.py:271-295 | when the wanted documents and the rejected ones no farther than the last of them fit the candidates, the result is the n nearest qualifying documents or all of them |
| NearestQuery.RejectedFirst | edge_vector_store.py:272-289 | otherwise some correct index answer leads to too few documents, for the same distance and query |
| NearestQuery.QueryIsExact | edge_vector_store.py:259-300 | for a fixed distance and query, every index answer is complete if and only if there is that much room |
| NearestQuery.OverfetchIsExact | edge_vector_store.py:259-300 | the query is complete for every distance, query and index answer if and only if all rejected documents and the wanted ones fit eight candidates per result |
| NearestQuery.NearestExists | edge_vector_store.py:272-273 | the index can always answer: the count asked for never exceeds its live labels |
| EdgeVectorStore.EdgeCollection.constructor | edge_vector_store.py:63-74 | a collection without stored data is empty and consistent |
| EdgeVectorStore.EdgeCollection.Reopen | edge_vector_store.py:71-112 | a stored collection is opened with its documents, dimension and index slots, and is consistent if it was saved so |
| EdgeVectorStore.EdgeCollection.EnsureIndex | edge_vector_store.py:120-126 | the index is created once, with the first batch's dimension |
| EdgeVectorStore.EdgeCollection.UpsertRow | edge_vector_store.py:165-179 | one row is written as specified, or refused for its dimension with the documents unchanged |
| EdgeVectorStore.EdgeCollection.Upsert | edge_vector_store.py:152-181 | each id of the batch shows the document, metadata and vector last given for it and other ids are unchanged, as single upserts into a plain dictionary would do; or the batch is refused as a whole, and which refusal happens when |
| EdgeVectorStore.EdgeCollection.Update | edge_vector_store.py:183-195 | for stored ids each metadata key has the value given last, keys nobody gives keep theirs, and nothing but metadata changes, as updates of a plain dictionary would do |
| EdgeVectorStore.EdgeCollection.Delete | edge_vector_store.py:197-210 | exactly the given ids disappear, and their labels are marked deleted |
| EdgeVectorStore.EdgeCollection.CollectHits | edge_vector_store.py:276-295 | the scan with its early end equals the first n qualifying candidates |
| EdgeVectorStore.EdgeCollection.Query | edge_vector_store.py:259-300 | the returned rows are unflagged, match and are ranked, and are the nearest qualifying ones when there is room for them among the candidates |
| EmbeddingCache.FittingCallAnswers | memory_retrieval.py:179-189 | a call whose cached entries and misses fit the cap always answers |
| EmbeddingCache.CallIsExact | memory_retrieval.py:179-189 | for every call, repetitions included, it answers if and only if the needed texts survive storing the misses: by the count of different misses, the keys dropped, and the order of repetitions when the misses fill the cache |
| EmbeddingCache.RepeatedMissCanFail | memory_retrieval.py:182-189 | an instance: a repeated miss pushes out an entry the same call needs |
| EmbeddingCache.Cache.StoreOne | memory_retrieval.py:185-188 | first-in-first-out eviction keeps the cap and the values |
| EmbeddingCache.Cache.Call | memory_retrieval.py:179-189 | the cache stays within its cap and correct over every call; the answer is the embeddings of the inputs, and when it fails |
| SemanticMemory.ScanRanked | memory_retrieval.py:450-464 | ending the ranked scan at the first far document loses nothing |
| SemanticMemory.Retrieve | memory_retrieval.py:401-549 | all phases together equal the deduplicated candidates in turn order |
| SemanticMemory.PhasesAreComplete | memory_retrieval.py:438-544 | the phases consider exactly the relevant documents and the keyword hits |
| SemanticMemory.RetrievedIsExact | memory_retrieval.py:417-549 | with and without embeddings: only unexpired turns of the session, no repeated fingerprint, turn order, and one turn for exactly the fingerprints of documents in reach or on topic and of keyword hits |
| SemanticMemory.NearestRepresents | memory_retrieval.py:450-464 | a fingerprint with a document within the limit is represented by its nearest document |
| SemanticMemory.RetrieveCrossSession | memory_retrieval.py:582-669 | the cross-session search equals its specification |
| SemanticMemory.ReadableDocsAreReadable | memory_retrieval.py:598-632 | the collected documents are exactly those the caller may read |
| SemanticMemory.CrossSessionIsPrivate | memory_retrieval.py:562-570 | only stored documents the caller may read, nearest first, distinct, at most n, within the limit |
| SemanticMemory.CrossSessionIsNearest | memory_retrieval.py:650-669 | nothing nearer is left out |
| SemanticMemory.MergeSessionResults | memory_retrieval.py:690-713 | the first current turn of every fingerprint, then the first cross-session turns of other fingerprints in their order; all of them, unless a cap is reached |
| SemanticMemory.MergeIsExact | memory_retrieval.py:690-713 | which turns the specified merge takes, and from where |
| SemanticMemory.MergeMeaning | memory_retrieval.py:677-689 | current turns are never displaced, no fingerprint repeats, at most four additions, and when exactly the total cap holds |
| ConversationLog.SplitJoin | services/conversation_log.py:65-69 | splitting a written log gives back its lines if none holds a break |
| ConversationLog.SplittingsAgree | admin_ui/conversation_log.py:57-67 | a whole read and the backwards reader see the same lines if no line holds a character at which only the latter breaks |
| ConversationLog.DecodeEncode | admin_ui/conversation_log.py:83 | decoding a whole file gives back its text |
| ConversationLog.ReverseRead | admin_ui/conversation_log.py:70-84 | the chunk loop over bytes returns the last lines of what it has read |
| ConversationLog.CutLines | admin_ui/conversation_log.py:78-83 | cutting a file at any byte, even inside a character, leaves all later lines whole |
| ConversationLog.ReaderIsExact | admin_ui/conversation_log.py:70-84 | for every chunk size the reader returns the last n non-blank lines if and only if what it has read when it stops suffices |
| ConversationLog.ReaderIsCorrect | admin_ui/conversation_log.py:70-84 | it does wherever chunk borders fall if none of the last n lines is blank |
| ConversationLog.LongLineIsCut | admin_ui/conversation_log.py:72-84 | at the chunk size in use, files for which the tail of a long line is returned as a line |
| ConversationLog.WrittenLogReadBack | admin_ui/conversation_log.py:70-84 | the last n written lines are read back if and only if none of them is blank or holds a character at which the reader breaks |
| LogPages.WrittenFile | services/conversation_log.py:65-69 | the lines of a file are the lines that were appended to it |
| LogPages.Collect | admin_ui/conversation_log.py:141-153 | the collecting loop equals its specification |
| LogPages.ReadUnfiltered | admin_ui/conversation_log.py:100-156 | the unfiltered branch returns the page of what was collected |
| LogPages.CollectedUpTo | admin_ui/conversation_log.py:143-153 | what is collected begins like the newest-first log as far as every file covers its share |
| LogPages.FullLogIsExact | admin_ui/conversation_log.py:143-153 | the newest-first log holds the entry of every non-blank line that parses once, file by file and from the last line of each |
| LogPages.PageIsExact | admin_ui/conversation_log.py:140-156 | over any number of files with different entries, a page is the right slice of the newest-first log if and only if it lies behind the log's end or every plain file covers its share |
| LogPages.PageIsSlice | admin_ui/conversation_log.py:140-156 | each page is right if each plain file has at most one page of malformed lines |
| LogPages.TotalTellsFurtherPage | admin_ui/conversation_log.py:154-156 | with fewer of them the total exceeds the page's end exactly when a further page exists |
| LogPages.ReadFiltered | admin_ui/conversation_log.py:158-168 | the page of all passing entries: one for every non-blank line that parses to one, time stamps not increasing, equal ones in file order; and how many there are |
| LogPages.MatchingIsExact | admin_ui/conversation_log.py:158-165 | the same about the list that is paged |
| LogPages.PagesPartition | admin_ui/conversation_log.py:155-156 | consecutive pages lose and repeat nothing |
| Json.ReadDumps | context_compressor.py:153-189 | an independent reader gives every value back from its serialised text, compact or spaced |
| Json.PruneRemovesNulls | context_compressor.py:101-108 | no null is left below the root |
| Json.PruneKeepsLeaves | context_compressor.py:101-108 | pruning loses, moves and reorders no scalar that is neither null nor an empty string |
| Json.PruneShortens | context_compressor.py:101-108 | pruning never lengthens the serialised form |
| Json.PruneFixpoint | context_compressor.py:101-108 | pruning changes nothing exactly on values without anything to remove |
| Json.OnePassIsEnough | context_compressor.py:101-108 | pruning twice is pruning once if and only if no surviving field holds a value that pruning empties |
| Json.PruneIsOnePass | context_compressor.py:101-108 | an instance: one pass can leave an empty object |
| Json.SummariseCaps | context_compressor.py:111-126 | no array of objects longer than the cap is left anywhere |
| Json.SummariseIdempotent | context_compressor.py:111-126 | summarising twice is summarising once |
| Json.ShortenLengthens | context_compressor.py:120-125 | shortening one array lengthens its text if and only if the dropped items are shorter than the note |
| Json.SummariseCanLengthen | context_compressor.py:120-125 | an instance: a family of arrays whose summary is longer |
| ContextCompressor.TrimBound | context_compressor.py:129-133 | when exactly a trimmed text is within the limit |
| ContextCompressor.DropLargest | context_compressor.py:171-185 | the dropping loop equals its specification and reports whether the rest fits |
| ContextCompressor.DropKeysIsMinimal | context_compressor.py:178-184 | no shorter prefix of the deletions would have fitted |
| ContextCompressor.LargestAreDropped | context_compressor.py:172-176 | no deleted value is smaller than a kept one |
| ContextCompressor.DroppedAt | context_compressor.py:171-185 | dropping keys leaves the other fields as they are and in order |
| ContextCompressor.CompressJsonContent | context_compressor.py:136-193 | of a text that does not fit and parses, the first of the four forms that fits, readable again; only if none fits a text cut from the last form |
| ContextCompressor.CompressionIsExact | context_compressor.py:136-193 | the same about the specified pipeline |
| ContextCompressor.CompressJsonBound | context_compressor.py:146 | the length invariant holds if and only if the limit is positive or the text fits |
| ContextCompressor.CompressLogBound | context_compressor.py:80-98 | a compressed log is within the limit exactly for limits that are not negative |
| ContextCompressor.CompressMessageBound | context_compressor.py:198-217 | for which contents and limits the router keeps the limit, and by how much it can exceed a positive one |
| ContextCompressor.CompressMessageMeaning | context_compressor.py:198-217 | what each kind of content becomes: a JSON compression, code without comments or its front, a log window, the front of prose |
| ContextCompressor.LogWindow | context_compressor.py:77-98 | a long log keeps its first and its last lines, or its front if they do not fit |
| HistoryTruncation.KeepNewestLoop | parsing.py:365-376 | the backwards loop equals its specification |
| HistoryTruncation.CompressLoop | parsing.py:346-363 | old answers, and only they, are compressed to the shared budget |
| HistoryTruncation.TruncateHistory | parsing.py:326-376 | the whole truncation equals its specification, switches, defaults and the failing case included |
| HistoryTruncation.KeepsLongestEnding | parsing.py:365-375 | the messages kept whole are the longest ending that fits |
| HistoryTruncation.KeepNewestBound | parsing.py:365-376 | the total is within the limit, and one more exactly when a message was cut |
| HistoryTruncation.TurnLimitedIsExact | parsing.py:324-333 | the limited history: the messages of user and assistant in order, and which of them a number of rounds keeps |
| HistoryTruncation.TruncateMeaning | parsing.py:297-376 | defaults and the unlimited case; when it fails; else the result is an ending of the compressed history with only its oldest message possibly cut, when exactly it exceeds the limit, and which messages are compressed to what |
| HistoryTruncation.NewestSurvive | parsing.py:349-362 | the two newest messages are never compressed |
| HistoryTruncation.OldAnswersAreBounded | parsing.py:351-357 | an old answer takes at most its budget plus the note |
| Watchdog.Monitor.constructor | watchdog.py:371-378 | the initial counters |
| Watchdog.Monitor.Tick | watchdog.py:380-388 | nothing is evaluated during the grace period |
| Watchdog.Monitor.Evaluate | watchdog.py:389-439 | after every cycle the fields and the alerts are those of the run, including the cycle that crashes on a zero threshold |
| Watchdog.Monitor.CollectAlerts | watchdog.py:126-204 | the evaluation loop returns the alerts of all nodes in order, or crashes exactly for a zero threshold with a node down |
| WatchdogRuns.DownAtMeaning | watchdog.py:153-161 | a down alert is raised exactly in down cycles whose streak is a multiple of the threshold |
| WatchdogRuns.OutageAlertCount | watchdog.py:153-161 | an outage of L cycles raises L div T down alerts |
| WatchdogRuns.NoAlertWhileUp | watchdog.py:155 | no down alert outside outages |
| WatchdogRuns.RecoveryIsExact | watchdog.py:163-168 | a recovery is announced exactly in a cycle reading 1.0 right after an outage of at least T cycles |
| WatchdogRuns.DownBetweenRecoveries | watchdog.py:437-439 | between two recoveries there is a down alert |
| WatchdogRuns.StuckSinceMeaning | watchdog.py:420-426 | the timer shows the second cycle of the current frozen stretch |
| WatchdogRuns.StuckIsExact | watchdog.py:190-202 | a stuck alert is raised exactly when the count has been the same positive number for the configured time |
| WatchdogRuns.VramIsExact | watchdog.py:170-187 | a memory alert is raised exactly for a node that is up, has a known capacity and uses at least the configured share |
| AlertDelivery.ListIsNewest | watchdog.py:318-325 | the alert list is the newest hundred alerts, newest first |
| AlertDelivery.Escalator.MaybeEscalate | watchdog.py:284-311 | whether a mail is sent, for every setting and cooldown |
| AlertDelivery.EscalationIsExact | watchdog.py:284-305 | an alert is mailed exactly when escalation is on for its severity and no mail for its type and node went out within the cooldown; alerts without a node count as the system's |
| AlertDelivery.MailsAreSpaced | watchdog.py:295-305 | two mails for one type and node are a cooldown apart |
| TeamBudget.BudgetTable.SetTeamBudget | admin_ui/database.py:2753-2764 | new limits keep the counters |
| TeamBudget.BudgetTable.DeductTeamBudget | admin_ui/database.py:2777-2785 | both counters grow, and a team without a row is unchanged |
| TeamBudget.BudgetTable.CheckTeamBudget | admin_ui/database.py:2788-2795 | allowed exactly if deducting the tokens would leave both counters within their limits; daily exhausted only if the monthly limit would hold |
| TeamBudget.OvershootIsBounded | admin_ui/database.py:2777-2795 | over every interleaving of k requests of at most m tokens, spent plus committed tokens stay within the limit plus (k-1)*m plus the estimate's slack |
| TeamBudget.SequentialNeverExceeds | admin_ui/database.py:2777-2795 | one request at a time never exceeds the limit |
| TeamBudget.OvershootIsReached | admin_ui/database.py:2777-2795 | the bound is reached, also with the zero-token check of the request path |
| MessageConversion.Convert | parsing.py:506-616 | at most one leading system message joining all system texts, then message by message, with roles, calls, replies, texts and images field by field |
| MessageConversion.ConvertedIsExact | parsing.py:546-616 | what each message of another role becomes |
| MessageConversion.SystemTextsAreExact | parsing.py:519-557 | which system texts there are, in order |
| MessageConversion.JoinLaw | parsing.py:523-526 | joining puts the separator between texts and nothing else |
| MessageConversion.OneLeadingSystemMessage | parsing.py:519-544 | at most one system message, first, holding all non-empty system texts in order |
| MessageConversion.ToolCallsSurvive | parsing.py:565-583 | every tool call of a non-system message is emitted once, in order |
| MessageConversion.ToolResultsSurvive | parsing.py:584-595 | exactly the tool results of messages without tool calls are emitted, in order |
| MessageConversion.ToolsSurvive | parsing.py:506-616 | both statements for the whole output |
| MessageConversion.TextsAndImagesSurvive | parsing.py:565-616 | which texts and images of the non-system messages are emitted, in order |
| NativeStream.Translate | main.py:1753-1814 | the stream loop emits the specified deltas |
| NativeStream.CallsSurvive | main.py:1775-1786 | assembling the deltas by index gives the upstream calls, numbered without gaps across all lines |
| NativeStream.TextBeforeDone | main.py:1770-1774 | before a done line the shown text is the upstream text |
| NativeStream.TextSurvives | main.py:1787-1809 | a done line adds its content and then the warning, exactly when no call was made, tools were offered and the text is suspicious |
| NativeStream.FinishesAreExact | main.py:1787-1811 | each done line brings one finish, for tool calls exactly if one was made by then, and nothing else does |
| NativeStream.FinishIsLast | main.py:1787-1811 | a stream that ends with a done line ends with its finish |
| PipelineGraph.RunsKeepInvariant | main.py:1128-1177 | in every run, for all router answers and branch orders, one node is pending or a fan-out is in progress |
| PipelineGraph.SlotsAfterAllBranches | main.py:1145-1153 | the barrier node fires only after one firing of each of the five branches of its round |
| PipelineGraph.GateHistory | main.py:1164-1172 | the two possible histories of a quality gate |
| PipelineGraph.CommitIsGuarded | main.py:1164-1177 | a commit follows binding and the quality gate, and conflict resolution and the critic follow the last merge |
| PipelineGraph.RunsEndAtTheGate | main.py:1173-1177 | no run gets stuck anywhere else |
| BackupRetention.BackupDir.DeleteAged | admin_ui/backup_retention.py:40-48 | exactly the files older than the period are deleted and counted |
| BackupRetention.BackupDir.DeleteOversize | admin_ui/backup_retention.py:50-62 | the oldest files are deleted until the rest fits |
| BackupRetention.BackupDir.Enforce | admin_ui/backup_retention.py:20-71 | the directory afterwards, and the report |
| BackupRetention.RetentionConserves | admin_ui/backup_retention.py:34-71 | bytes and counts are conserved and only backups are deleted |
| BackupRetention.AgeIsExact | admin_ui/backup_retention.py:12-48 | a file is deleted for its age exactly if the period is on, it is older, and it is neither a directory nor hidden |
| BackupRetention.OthersStay | admin_ui/backup_retention.py:14-17 | directories and hidden files stay |
| BackupRetention.SurvivorsAreNewest | admin_ui/backup_retention.py:40-62 | every survivor is at least as new as every deleted file |
| BackupRetention.CapIsTight | admin_ui/backup_retention.py:50-62 | the rest fits the cap, and with the last deleted file it would not |
| BackupRetention.RerunDeletesNothing | admin_ui/backup_retention.py:34-62 | a rerun at the same clock deletes nothing |
| NodePins.PinsSplit | admin_ui/maintenance.py:58-84 | the collected references are those the rewrite reaches plus those it does not |
| NodePins.RepinReach | admin_ui/maintenance.py:87-102 | one rewrite turns every reference within reach into its image and changes no other |
| NodePins.RepinIsRename | admin_ui/maintenance.py:87-102 | it replaces the references to the dead node and nothing else if and only if no pin it visits extends the dead name |
| NodePins.RepinHarmsLongerNames | admin_ui/maintenance.py:97 | an instance: a live name that extends a dead one is damaged |
| NodePins.RepinAllIsExact | admin_ui/maintenance.py:335-336 | repinning all dead nodes leaves only live references if and only if none is out of reach and no name is turned into a dead one |
| NodePins.UnextendedNames | admin_ui/maintenance.py:97 | if no dead name starts another name, dead names become the live one and others stay |
| NodePins.NamedServersCount | admin_ui/maintenance.py:54-55 | every named server is active, enabled or not |
| NodePins.FallbackIsBest | admin_ui/maintenance.py:263-275 | the fallback has the most memory among the enabled servers with the ontology service, or without regard to it if there is none; when there is no fallback |
| NodePins.RepinTemplateIsExact | admin_ui/maintenance.py:170-180 | when exactly a repinned template is no orphan any more, with the stored id, name and description in the place of the configuration's own |
| NodePins.TemplateTable.Cleanup | admin_ui/maintenance.py:305-342 | the table after a cleanup and its counters; a dry run only counts |
| NodePins.CleanupIsExact | admin_ui/maintenance.py:305-342 | exactly the templates named after missing nodes go; the others stay in order with their id, name and description, and their configuration unless it is repinned |
| NodePins.SecondScanIsClean | admin_ui/maintenance.py:278-345 | a second scan after cleanup reports no template if and only if every kept template was mendable |
| ContextBudget.ResolveIoBudget | context_budget.py:690-765 | the output is the desired one, capped where the protected share needs it and raised to the floor; the parts sum to the window or the overflow flag equals the pre-flight check |
| ContextBudget.ProtectedShare | context_budget.py:740-743 | the protected input is the desired output or the share of the window in whole tokens |
| ContextBudget.WebBudgetSteps | context_budget.py:663-681 | the number and size of the web blocks by the tokens left |
| ContextBudget.WebBudgetGrows | context_budget.py:663-681 | a larger window never gets fewer blocks or fewer characters in all |
| ContextBudget.WebBlocksFit | context_budget.py:663-681 | the web blocks fit what is left of the window if and only if at least 300 tokens are left, for unknown windows too |

## Left out

- Storage and transport: SQLite transactions and crash recovery, locks, HTTP, Redis, Kafka, Postgres and SMTP; only the state they change is modelled, and calls succeed unless a failure is listed above.
- EdgeVectorStore.EdgeCollection.Query: one query vector and at least one result; several vectors are handled independently, and the library's behaviour for zero is not part of this model. The metadata filter (`_match_where`) is an arbitrary predicate, and `get` is not modelled.
- EdgeVectorStore.EdgeCollection.constructor: stored data is the subject of `Reopen`, which takes the saved table and index as they are.
- SemanticMemory.Retrieve: distances are not rounded to four digits, and swallowed exceptions of the look-ups count as empty answers.
- ConversationLog.ReverseRead: files that are not valid UTF-8 and read errors are not modelled; a byte is the first or a later one of a character.
- LogPages.PageIsExact: plain files hold no blank lines and no characters at which only the backwards reader breaks; `WrittenLogReadBack` says what such a line costs one read.
- ContextCompressor.CompressMessageBound: content detection, comment stripping and line splitting are arbitrary functions.
- HistoryTruncation.TruncateHistory: every message has content, a string or a list of blocks.
- Watchdog.Monitor.constructor: node names are distinct; alert texts, rounding in messages and reading the configuration are left out.
- TeamBudget.OvershootIsBounded: limits do not change during a run, and no counter is reset.
- PipelineGraph.RunsKeepInvariant: nodes fire one at a time in any order, which includes the orders of the original's parallel steps; node bodies and router conditions are free choices.
- BackupRetention.BackupDir.Enforce: file sizes and times do not change during the job.
- NodePins.Repin: works on values, so in-place update and aliasing of nested dictionaries are not captured; pins are tokens, and a node name is split at its hyphens.
- NodePins.TemplateTable.Cleanup: only admin templates; the other artefacts of the scan and undecodable configurations are left out.
- Curator provisioning (`_swap_node_and_model`): a rewrite of the same kind that also reaches list items.
- Benchmark comparison, phase timings, Markdown chunking, API-key lifecycle and team membership: they would only add easy members.
- Floating-point rounding, hashing, cosine numerics and the approximation made by the real index.
