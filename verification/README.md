# Verification model of Sift

Sift is a code search engine that keeps one fact, "this chunk of this file exists and looks
like this", in several places at once: rows of an SQLite table, a memory-mapped fp16 matrix, a
Tantivy index, a dense index in memory, and, while the daemon indexes, a frozen snapshot. This
project models the parts of Sift that keep those copies equal and proves that they do: under
batches, tombstones, renames, compaction, crashes between any two durable writes, files that
arrive in any order from a thread pool, and every interleaving of the daemon's threads. It also
models the kernels underneath (file layout, framing, chunk bodies, hashing, padding and pooling)
and the ranking on top (bounded selection, reciprocal rank fusion, result assembly).

`dafny verify dfyconfig.toml` checks the whole project.

| file | what it holds |
|---|---|
| `Records.dfy`, `Bytes.dfy` | chunk records, vectors, options and results; bytes and little-endian integers |
| `StoreView.dfy` | what an opened chunk store means: a sequence of rows, and each store operation on it |
| `StoreDir.dfy`, `Crash.dfy` | the store directory as durable state, the writes of every operation, crashes and whole runs |
| `Store.dfy` | `ChunkStore` as a class over that directory |
| `Lexical.dfy`, `Agreement.dfy` | the lexical index with its writer and reader, and its agreement with the store |
| `Pass.dfy`, `Pipeline.dfy` | what an indexing pass may do, in any order of arrival; `Indexer` as a class |
| `Provenance.dfy` | where the text of every document and every preview comes from |
| `Recovery.dfy` | every crash point of an index run: agreement, a refused index, or one of two blind spots |
| `Ranking.dfy`, `Dense.dfy`, `Fusion.dfy`, `Search.dfy` | sort-and-truncate, the bounded heap, fusion, a whole search |
| `SearchInvariance.dfy` | what a search can tell of a compaction: the row number in one refusal, and nothing else |
| `Snapshot.dfy`, `Serving.dfy` | the frozen snapshot against the resident state; the serving cell and its threads |
| `Rebuild.dfy`, `Continuity.dfy` | searches before and after a compaction, and while an index run owns the store |
| `Codec.dfy`, `Connection.dfy`, `Client.dfy` | frames, the server's connection loop, the client |
| `Matrix.dfy` | the matrix file, byte by byte |
| `Chunker.dfy`, `Splitting.dfy` | chunk bodies; the pieces of an oversize body |
| `NormalizeBody.dfy`, `Embedding.dfy` | the normal form that is hashed; padding and pooling |

Objects whose methods update fields are classes whose methods are proved against functions on
values; what the source promises is then proved about those functions. Where a promise is false
of the code, the model keeps the code, proves exactly when the promise holds, and shows an input
for which it does not:

| promise | holds exactly when | fails at |
|---|---|---|
| one pass indexes every current hash | `Pass.SinglePassIff` | `Pass.MovedHashIsLost` |
| matching counts mean agreement after a compaction that missed the index | `Pipeline.CountCheckBlindSpot` | `Pipeline.CompactionGapExists` |
| matching counts mean agreement after a rename that missed the index | `Pipeline.RenameBlindSpot` | `Pipeline.RenameGapExists` |
| agreement between retrievers outranks a single hit | `Fusion.AgreementIff` | `Fusion.DeepListsUnsafe` |
| no search shows that a store was compacted | `SearchInvariance.SearchUnseenByCompaction` | `SearchInvariance.RefusalMovesExists` |
| the snapshot searches as the resident state | `Snapshot.FrozenSearchIff` | `Snapshot.BothFailExists`, `Snapshot.WordingDiffers` |
| the snapshot finds similar code as the resident state | `Snapshot.FrozenSimilarIff` | `Snapshot.SimilarDiffersExists` |
| the daemon becomes ready again | `Serving.ReadyAgainIff` | `Serving.FailedSplitReached` |
| every request gets a terminal frame | `Connection.OneTerminalEach` | `Connection.UnsendableError` |
| every visible position under a hit is in one kept body | `Chunker.PartitionIff` | `Chunker.NestedFunctionShared` |
| merging the rest of a split text loses nothing visible | `Splitting.MergeShowsIff` | `Splitting.MergeLoses` |
| lines are read back as they were written | `NormalizeBody.LinesReadBackIff` | `NormalizeBody.TouchingEndsMerge` |

In one place code and comment differ, and the model follows the code: the comment at
crates/indexing/src/pipeline.rs:258 says that the last of several work items for a path wins, but
the first is kept.

## Model

| member | source | states |
|---|---|---|
| StoreView.InsertAllMeaning | crates/storage/src/store.rs:174-246 | A batch leaves existing rows alone, answers every chunk, keeps live hashes unique, and afterwards exactly the old and the offered hashes are live |
| StoreView.InsertAllIds | crates/storage/src/store.rs:174-246 | The row id returned for each chunk is a live row that carries that chunk's hash, for repeats inside the batch too |
| StoreView.InsertAllAdded | crates/storage/src/store.rs:202-226 | Every row a batch adds is live, holds some offered chunk's record and vector, and its hash was not live before |
| StoreView.RowsForFileMeaning | crates/storage/src/store.rs:349-360 | The rows of a file come ascending and are exactly its live rows |
| StoreView.TombstoneCount | crates/storage/src/store.rs:376-389 | Tombstoning n distinct live rows lowers the live count by exactly n |
| StoreView.RekeyMeaning | crates/storage/src/store.rs:391-397 | A rename in the store changes the path of exactly the live rows of the file and nothing else of any row: record, vector, liveness and the set of live hashes stay |
| StoreView.CompactionMapping | crates/storage/src/store.rs:487-606 | The mapping is strictly increasing, never moves a row up, reaches every live row once, is onto 0..live, and carries record, vector and liveness along |
| StoreView.CompactPreserves | crates/storage/src/store.rs:487-606 | Compaction keeps the live hashes and the live count and leaves no dead row |
| StoreDir.VerifyMeaning | crates/storage/src/store.rs:423-485 | Verification passes if and only if rowids are exactly 0..rows and live hashes are distinct |
| StoreDir.OpenRecovers | crates/storage/src/store.rs:75-118 | Opening a recoverable directory succeeds, drops only trailing orphan rows, and shows the same rows |
| StoreDir.OpenIff | crates/storage/src/store.rs:144-172 | Opening succeeds on exactly the recoverable directories |
| Crash.OpDone | crates/storage/src/store.rs:174-606 | The durable writes of an operation, carried out completely, have its effect and leave nothing to repair |
| Crash.CrashSafe | crates/storage/src/store.rs:174-606 | Cut off after any number of its durable writes, an operation leaves a recoverable directory that shows the state before or after it, never a mix |
| Crash.ReopenSucceeds | crates/storage/src/store.rs:144-172 | The open after a crash succeeds, verifies, and shows the contents from before or after the interrupted operation |
| Crash.RunIsReplay | crates/storage/src/store.rs:120-606 | Over any run of completed and interrupted operations from a created store, the contents are those of the completed operations, in order, with each interrupted one wholly in or wholly out |
| Crash.RunIsUniform | crates/storage/src/store.rs:174-200 | After any such run every stored row has the width the store was created with |
| Store.ChunkStore.Open | crates/storage/src/store.rs:144-172 | The class opens exactly as the durable-state function says, with the same errors |
| Store.ChunkStore.ReclaimTrailingOrphans | crates/storage/src/store.rs:75-118 | Reclaiming lowers the matrix row count to one past the last rowid and changes nothing else |
| Store.ChunkStore.Verify | crates/storage/src/store.rs:423-485 | Its three loops compute the orphan, missing and duplicate rows of the specification |
| Store.ChunkStore.InsertBatch | crates/storage/src/store.rs:174-246 | Performs exactly the durable writes of an insert in order, returns its row ids, and on a failed commit or a wrong dimension leaves the contents alone |
| Store.ChunkStore.TombstoneRows | crates/storage/src/store.rs:376-389 | Marks exactly the given live rows dead in one committed write; every record and vector stays |
| Store.ChunkStore.RekeyFile | crates/storage/src/store.rs:391-397 | Exactly the live rows of the file take the new path, every other field of every row stays, the live hashes are the same, and the number of renamed rows is returned |
| Store.ChunkStore.SetIndexedCommit | crates/storage/src/store.rs:624-628 | Records the commit and changes no row |
| Store.ChunkStore.CompactStore | crates/storage/src/store.rs:487-606 | Performs the writes of a compaction in order; the live rows follow each other unchanged at the places the returned mapping gives, the counts of the report are right, and the indexed commit stays |
| Store.ChunkStore.LiveHashesDistinct | crates/storage/src/store.rs:423-485 | Every valid store has distinct live hashes |
| Lexical.RepresentsLookup | crates/retrieval/src/lexical.rs:342-362 | Where the documents represent a map, the one-document lookup by row returns the map's document or nothing |
| Lexical.RenumberIsSubstitution | crates/retrieval/src/lexical.rs:248-271 | Deleting the old row, deleting the new row and adding, entry after entry over the committed view, equals the simultaneous substitution for a mapping that moves rows down in order |
| Lexical.LexicalIndex.AddBatch | crates/retrieval/src/lexical.rs:211-220 | Stages the documents, one per row whatever was there |
| Lexical.LexicalIndex.Remove | crates/retrieval/src/lexical.rs:222-228 | Stages the removal of exactly these rows |
| Lexical.LexicalIndex.UpdateFilePaths | crates/retrieval/src/lexical.rs:230-246 | Stages new paths for rows the reader sees and skips the others |
| Lexical.LexicalIndex.Renumber | crates/retrieval/src/lexical.rs:248-265 | Stages the renumbering step by step, reading from the committed view |
| Lexical.LexicalIndex.Commit | crates/retrieval/src/lexical.rs:267-271 | The reader then sees exactly what was staged, and nothing is pending |
| Agreement.AgreeCount | crates/indexing/src/pipeline.rs:148-156 | In agreement the document count equals the live count, so the guard on reopening cannot fire |
| Agreement.AgreeTombstone | crates/indexing/src/pipeline.rs:607-629 | Tombstoning rows and removing their documents keeps agreement |
| Agreement.AgreeAppend | crates/indexing/src/pipeline.rs:677-756 | Appending chunks and adding their documents under consecutive row ids keeps agreement |
| Agreement.AddedWritten | crates/indexing/src/pipeline.rs:708-718 | The documents of a batch stand under consecutive row ids, each with the fields of its chunk's record and the text of its chunk; every other document is as it was |
| Agreement.AgreeRekey | crates/indexing/src/pipeline.rs:338-347 | Renaming a file in the store and in its documents keeps agreement, and changes the path of exactly the documents of its rows |
| Agreement.AgreeCompact | crates/indexing/src/pipeline.rs:297-313 | Compacting the store and renumbering the documents by its mapping keeps agreement |
| Pass.NothingStaleAfter | crates/indexing/src/pipeline.rs:607-629 | After any pass, complete or not, no live row of a consumed file carries a hash the file does not have |
| Pass.HashesAfter | crates/indexing/src/pipeline.rs:489-675 | Which hashes are live after a completed pass, exactly, for any order of arrival |
| Pass.SinglePassIff | crates/indexing/src/pipeline.rs:531-643 | One pass makes every current hash live if and only if no stale row carries a current hash |
| Pass.MovedHashIsLost | crates/indexing/src/pipeline.rs:607-643 | A concrete store and two files where a hash moves from one file to the other and one completed pass loses it |
| Pass.TwoRunFixpoint | crates/indexing/src/pipeline.rs:198-218 | On an unchanged tree, for any arrival order in each run: the first leaves nothing stale, the second tombstones nothing and makes every current hash live, the pass of the third adds and tombstones nothing, and the dead rows are at most the threshold share |
| Pass.FirstRun | crates/indexing/src/pipeline.rs:198-218 | From an empty store, or what an interrupted first run left, one run gives exactly the union of current hashes |
| Pass.IndexRunByCount | crates/indexing/src/pipeline.rs:297-313 | An index run is a completed pass, then the live rows packed if the dead rows outnumber the threshold share of all rows, and otherwise nothing |
| Provenance.TracedEmbodied | crates/indexing/src/pipeline.rs:677-756 | A run keeps every live vector the embedding of its document's text |
| Provenance.SearchShowsIndexed | crates/indexing/src/pipeline.rs:708-718 | After an index run every result of every search shows the record and the longest fitting beginning of the text of a chunk of an indexed file, or of a row that was live before the run |
| Pipeline.Indexer.Open | crates/indexing/src/pipeline.rs:141-170 | Opening succeeds if and only if the model ids match, the two counts match and the repository opens; otherwise the first of these refusals is reported; from a state in agreement the counts always match |
| Pipeline.Indexer.TombstoneBoth | crates/indexing/src/pipeline.rs:607-629 | Exactly these rows go dead in the store, exactly their documents leave the index, everything else of both stays, and the removed counter grows by their number |
| Pipeline.Indexer.FlushBatch | crates/indexing/src/pipeline.rs:677-756 | A batch is appended to both or to neither; the document of each added row has its chunk's fields and text, and every other document stays; agreement and the counter balance survive every error, and an added chunk costs one embedding |
| Pipeline.Indexer.ProcessWorkItems | crates/indexing/src/pipeline.rs:489-675 | For any arrival order and batch size the loop realizes a completed pass, or an interrupted one on error, in agreement and with balanced counters; every live row and its document are old, or are one chunk of a consumed file, its record, the embedding of its text and its text; added plus reused accounts for every chunk offered |
| Pipeline.VanishedRows | crates/indexing/src/pipeline.rs:607-620 | The rows picked for tombstoning are exactly the file's live rows whose hash vanished, without repetition |
| Pipeline.OnePerHash | crates/indexing/src/pipeline.rs:677-700 | Keeps one chunk per hash, and a batch without repeats unchanged |
| Pipeline.Indexer.MaybeCompact | crates/indexing/src/pipeline.rs:297-313 | The store is packed and the documents are renumbered by its mapping exactly when there are rows and the dead ones outnumber the threshold share of all, in row counts; otherwise neither changes; the indexed commit and the counters stay |
| Pipeline.Indexer.RecordCommit | crates/indexing/src/pipeline.rs:288-295 | The recorded commit is HEAD, with "+dirty" behind it when the worktree was dirty and is what is indexed |
| Pipeline.Indexer.Finish | crates/indexing/src/pipeline.rs:75-88 | Every successful run ends with live_after = live_before + added - removed without underflow, embeddings = added, and dead rows within the threshold share |
| Pipeline.Indexer.IndexAll | crates/indexing/src/pipeline.rs:198-218 | A successful full run is a completed pass over the walked files and a compaction decided by row counts, with reconciled counters and at most the threshold share of the rows dead; a failed one is an interrupted pass; every live row and its document are old or come from one chunk, and agreement holds, either way |
| Pipeline.Indexer.ApplyDelete | crates/indexing/src/pipeline.rs:328-337 | A deleted path loses exactly its live rows and their documents; everything else stays |
| Pipeline.Indexer.ApplyRename | crates/indexing/src/pipeline.rs:338-358 | Exactly the live rows of the path and their documents take the new one; every other field, row and document and the live hashes stay |
| Pipeline.Indexer.ApplyFileChanges | crates/indexing/src/pipeline.rs:315-363 | A live row stays live exactly when its file is still somewhere after the changes, and has the path its file then has; nothing else of rows and documents changes; every readable target of the other changes becomes work; the first file whose reading fails ends it, with exactly the changes up to that one applied |
| Pipeline.FirstPerRel | crates/indexing/src/pipeline.rs:258-262 | One work item per path, with none lost |
| Pipeline.Indexer.Update | crates/indexing/src/pipeline.rs:220-273 | An incremental run moves and drops rows as the git changes move and delete their files, then is an index run over every changed or dirty file, or over the walked files when no commit is recorded; counters reconcile and the commit label is right; a failed run is some first git changes, then an interrupted pass; agreement holds, and vectors stay embeddings of their documents' texts, either way |
| Pipeline.CountCheckBlindSpot | crates/indexing/src/pipeline.rs:148-156 | After a crash between compaction and the lexical commit the counts always match, and the copies agree if and only if no dead row came before a live one |
| Pipeline.CompactionGapExists | crates/indexing/src/pipeline.rs:148-156 | A concrete store with a dead row before a live one, whose compaction goes unnoticed and leaves the copies in disagreement |
| Pipeline.RenameBlindSpot | crates/indexing/src/pipeline.rs:338-347 | After a crash between a rename in the store and its lexical commit the counts always match, and the copies agree if and only if the rename moved nothing |
| Pipeline.RenameGapExists | crates/indexing/src/pipeline.rs:338-347 | A concrete rename that goes unnoticed and leaves the copies in disagreement |
| Pipeline.TombstoneGapSeen | crates/indexing/src/pipeline.rs:148-156 | After a crash between tombstoning rows and the lexical commit the guard fires if and only if some row changed |
| Pipeline.InsertGapSeen | crates/indexing/src/pipeline.rs:148-156 | After a crash between a batch and its lexical commit the guard fires if and only if the batch added a row |
| Recovery.RunAgrees | crates/indexing/src/pipeline.rs:297-756 | Between its steps, each a store operation and a lexical commit, an index run on a created store keeps both copies in agreement |
| Recovery.LostCommit | crates/indexing/src/pipeline.rs:148-156 | A step whose lexical commit is lost goes unnoticed if and only if it is a compaction that moves a row or a rename of a file that has rows |
| Recovery.CrashClassified | crates/indexing/src/pipeline.rs:148-156 | At every crash point of every index run the store reopens, and the copies agree or the guard fires, except exactly for those two steps cut off after their effect on the store |
| Ranking.RankedUnique | crates/retrieval/src/dense.rs:55-62 | A ranked arrangement of a bag with distinct keys is unique |
| Ranking.RankOrderFree | crates/retrieval/src/fusion.rs:88-104 | The order in which a bag is collected does not show after ranking |
| Ranking.TopSnoc | crates/retrieval/src/dense.rs:205-222 | One more candidate changes the best n by at most one replacement of the worst |
| Ranking.TopOfParts | crates/retrieval/src/lexical.rs:143-158 | Merging the best n of every part gives the best n of the whole |
| Dense.SelectScores | crates/retrieval/src/dense.rs:194-234 | The bounded heap equals sort-then-truncate over live rows, ties by ascending row, and fails if and only if a live score is not finite, naming the first such row |
| Dense.CandidateRows | crates/retrieval/src/dense_reference.rs:6-41 | The reference ranks exactly the live rows, each with its entry in the given scores |
| Dense.DenseIndex.PrepareSlice | crates/retrieval/src/dense.rs:85-145 | Preparing succeeds if and only if the shapes match, and then holds exactly these rows and this mask |
| Dense.DenseIndex.Refresh | crates/retrieval/src/dense.rs:251-297 | An index grown by a refresh on a prefix-extended matrix is the one a fresh preparation gives, and a refused refresh changes nothing |
| Dense.DenseIndex.Search | crates/retrieval/src/dense.rs:147-192 | After the width, model and zero-limit cases, it fails exactly on the first live row whose own score is not finite, naming it; otherwise it lists min(limit, live rows) live rows, each with the score of its own vector, by score and then row, and none left out is ahead of one listed |
| Dense.ChunksOfFlatten | crates/retrieval/src/dense.rs:182-192 | Cutting the flat matrix into rows gives the rows back |
| Fusion.Fuse | crates/retrieval/src/fusion.rs:46-104 | One entry per row of the two truncated lists, with its last rank and score in each list and the sum of the shares of all its places, sorted by score then row, for every order in which the hash map yields |
| Fusion.FusedScore | crates/retrieval/src/fusion.rs:46-104 | A row's fused score is the sum of the reciprocals of rrf_k plus its place in each list that has it, and nothing else is |
| Fusion.FusionUnique | crates/retrieval/src/fusion.rs:46-104 | Two lists have exactly one fusion |
| Fusion.AgreementIff | crates/retrieval/src/fusion.rs:46-104 | A row found by both retrievers ranks above every row found by one, for all lists, if and only if the worst pair of ranks within the depths outweighs one first place |
| Fusion.DeepListsUnsafe | crates/retrieval/src/fusion.rs:46-104 | At depths of rrf_k + 2 the condition fails, and so does the promise |
| Fusion.SmallDepthsSafe | crates/retrieval/src/fusion.rs:9-26 | Depths below rrf_k + 2 satisfy that condition |
| Fusion.DefaultsSafe | crates/retrieval/src/fusion.rs:18-26 | The default depths and constant satisfy it |
| Fusion.FusionRelabels | crates/retrieval/src/fusion.rs:46-104 | Fusion commutes with every relabelling that is increasing on the rows that occur |
| Search.CollectAll | crates/retrieval/src/lexical.rs:113-184 | Collecting per segment and merging gives the best of all matching documents, ties by row |
| Search.LexicalOrderFree | crates/retrieval/src/lexical.rs:79-98 | Neither segments nor the order of additions show in a lexical answer |
| Search.CorpusOrderFree | crates/retrieval/src/lexical.rs:79-98 | The corpus that a score may depend on is the bag of live documents, in whatever segments and order they lie |
| Search.SearchLexical | crates/retrieval/src/lexical.rs:79-98 | At depth zero the answer is empty; otherwise it is the retriever's error, or min(depth, matching) rows whose documents match the text, each with its document's score for the text in the corpus of all documents, in order, and none left out is ahead of one listed |
| Search.Run | crates/retrieval/src/search.rs:99-230 | A search over real indexes answers as the specification on store view and documents: degraded when one retriever fails, refused when both do, and a lexical search of depth zero never fails |
| Search.AssembleRows | crates/retrieval/src/search.rs:362-396 | Results follow the fused order, skip rows without a live record, and carry that row's record and body |
| Search.AnswerShape | crates/retrieval/src/search.rs:362-396 | The results are the first top_k fused rows, each live row once with its own record, preview and the score each retriever gave it, best fused score first |
| Search.ResponseMeaning | crates/retrieval/src/search.rs:99-230 | A whole search on live rows and documents: refused when the embedder or both retrievers fail; otherwise the errors of each half and the best top_k of the rows either half found, each once with its record, preview, own scores and summed reciprocal ranks, in that order, and none left out is ahead of one shown |
| Search.AgreementInSearch | crates/retrieval/src/search.rs:99-230 | Neither retriever names a row twice, so in every search at safe depths a row found by both stands before every row found by one |
| Search.PreviewMeaning | crates/retrieval/src/result.rs:57-66 | A preview is the longest beginning of the body, in whole characters, whose UTF-8 encoding has at most 320 bytes |
| SearchInvariance.CorpusRenumbered | crates/retrieval/src/lexical.rs:248-265 | Renumbering keeps the corpus, row by row |
| SearchInvariance.LexicalRenumbered | crates/retrieval/src/lexical.rs:248-265 | After compaction and renumbering, lexical answers are the old ones row by row, with equal scores and order, for every score that depends on the query, the document and the whole corpus |
| SearchInvariance.DenseRenumbered | crates/retrieval/src/dense.rs:194-234 | After compaction, a rebuilt dense index gives the old answers row by row, or the same refusal with its row renumbered |
| SearchInvariance.AssembleRenumbered | crates/retrieval/src/search.rs:362-396 | Assembled results do not show the renumbering |
| SearchInvariance.SearchRenumbered | crates/storage/src/store.rs:487-606 | Every query gets the same response or the same error before and after a compaction, up to the new number of a row whose score is refused |
| SearchInvariance.SearchUnseenByCompaction | crates/storage/src/store.rs:487-606 | A query, at every top_k, configuration, role and mode, gets the same response or the same error before and after a compaction if and only if no refused score is behind a dead row, for corpus-dependent scores |
| SearchInvariance.RefusalMovesExists | crates/retrieval/src/dense.rs:205-211 | A store of two rows whose compaction changes the row that a refusal names |
| Snapshot.Resident.Search | crates/daemon/src/resident.rs:240-256 | The resident search is the specified search of its store and documents, reported as the daemon reports it |
| Snapshot.Resident.GetSymbol | crates/daemon/src/resident.rs:525-577 | The lookup answers with the one live row of that file and symbol, its record and its text, or says that there is none, or names each of several once as file and signature |
| Snapshot.Resident.SplitForIndex | crates/daemon/src/resident.rs:283-335 | The snapshot freezes the resident state of that moment: records and bodies of exactly the live rows, the dense index, the lexical reader |
| Snapshot.FrozenSearch.Search | crates/daemon/src/resident.rs:367-385 | The snapshot answers from what it froze |
| Snapshot.FrozenSearch.SearchSimilar | crates/daemon/src/resident.rs:387-405 | The snapshot's similar-code search answers from what it froze, with the lexical path on |
| Snapshot.FrozenSearch.GetSymbol | crates/daemon/src/resident.rs:407-445 | Whatever order the hash map yields, the lookup answers so from the frozen state, and as the resident would up to the order of candidates |
| Snapshot.FrozenSearchIff | crates/daemon/src/resident.rs:448-523 | Snapshot and resident answer a query alike, error details included, if and only if not both retrievers fail and the embedding succeeds or fails for want of a GPU; when both fail the snapshot answers empty where the resident refuses |
| Snapshot.BothFailExists | crates/daemon/src/resident.rs:448-523 | A store of one row and an engine whose retrievers both fail, on which the two differ |
| Snapshot.WordingDiffers | crates/daemon/src/resident.rs:631-649 | An embedder whose failure the two report in different words |
| Snapshot.FrozenSimilarIff | crates/daemon/src/resident.rs:387-405 | Snapshot and resident answer similar-code searches alike at every top_k if and only if the embedding fails for want of a GPU, or succeeds while the lexical path succeeds and keeps no row |
| Snapshot.SimilarDiffersExists | crates/daemon/src/resident.rs:387-405 | A store of one row and one dimension and an engine for which the two differ |
| Snapshot.RebuildResident | crates/daemon/src/resident.rs:337-363 | From any store and index in agreement a resident state is rebuilt whose dense index holds exactly the rows and the live mask |
| Rebuild.SettledAnswersAlike | crates/indexing/src/pipeline.rs:297-313 | A possible compaction changes no answer to any search, up to the number of a refused row |
| Rebuild.CompactAndRebuild | crates/daemon/src/resident.rs:337-363 | The resident state rebuilt after a possible compaction answers every search as the state before it would have, up to the number of a refused row |
| Rebuild.SearchAcross | crates/daemon/src/resident.rs:240-256 | A resident searched before the compaction and the one rebuilt after it report the same to the client, unless a refused score is behind a dead row |
| Continuity.SearchAnswersPublished | crates/daemon/src/server.rs:349-359 | In every interleaving a search that begins is answered as a resident would answer it that holds what the last load or index run put into service, exactly under the snapshot condition |
| Continuity.SearchDuringIndex | crates/daemon/src/resident.rs:283-335 | A search of the snapshot after an index run has rewritten store and index, however it ended, equals the search of the resident before it, exactly under the snapshot condition |
| Serving.RunSafe | crates/daemon/src/server.rs:129-207 | Every interleaving of loader, searches, index workers and shutdown keeps the invariants that tie cell, flag, workers and searches together |
| Serving.OneWorkerOneOwner | crates/daemon/src/server.rs:453-541 | At most one worker, the flag says exactly whether it exists, Indexing never with a clear flag, at most one owner of the store |
| Serving.BorrowedStays | crates/daemon/src/server.rs:473-495 | While a search borrows the resident, no event takes or replaces it |
| Serving.SearchSeesPublished | crates/daemon/src/server.rs:349-359 | A search begins if and only if the cell holds a resident or a snapshot, and it sees the contents that the last load or index run put into service |
| Serving.ServedIsLast | crates/daemon/src/server.rs:506-541 | After any events, what is published is the argument of the last load or index run that succeeded and was settled, and a ready cell holds exactly that |
| Serving.RefusedRestores | crates/daemon/src/server.rs:473-495 | An index request that meets a borrowed or unready cell restores the whole state exactly |
| Serving.FailedSplitIsFinal | crates/daemon/src/server.rs:497-504 | After a failed split the cell is Starting after every later run of events |
| Serving.FailedSplitReached | crates/daemon/src/server.rs:497-504 | Loading, an index request and a failed split reach that state from the start |
| Serving.ReadyAgainIff | crates/daemon/src/server.rs:453-541 | Some continuation makes the daemon ready if and only if the cell, the loader or a worker still owns the store |
| Codec.Reader.SkipOversizedBody | crates/daemon/src/codec.rs:93-108 | Skips exactly the declared bytes, or reports that the stream ended |
| Bytes.ToLittleEndianValue | crates/daemon/src/codec.rs:8-23 | Four bytes spell their number with the least significant byte first |
| Codec.Reader.DecodeOneRecovering | crates/daemon/src/codec.rs:112-154 | Reads one frame as specified and leaves the reader at the next frame |
| Codec.Reader.DecodeStream | crates/daemon/src/server.rs:570-616 | Reading until the stream ends yields the specified outcomes |
| Codec.FrameRoundTrip | crates/daemon/src/codec.rs:8-23 | A good, oversized or undecodable frame in front of any bytes is read back as what it was, with exactly those bytes left |
| Codec.StreamRoundTrip | crates/daemon/src/codec.rs:93-154 | Any mixture of frames, with any cut-off tail, yields one outcome per frame in order |
| Codec.EveryStreamIsFrames | crates/daemon/src/codec.rs:112-154 | Every byte string is a sequence of frames and a cut-off tail, and yields one outcome per frame |
| Codec.EncodingUnambiguous | crates/daemon/src/codec.rs:8-23 | No encoded frame begins another, and equal encodings mean equal values |
| Connection.HandleHello | crates/daemon/src/handshake.rs:12-43 | Accepts if and only if the request is a Hello of this protocol version |
| Connection.ServerConnection.HandleFrame | crates/daemon/src/server.rs:210-310 | Each frame is honoured: framing errors; before Hello what three looks at the serving cell call for; after it the terminal frame of the request's kind and outcome; exactly one terminal frame under the request's id if and only if the last response tried can be encoded, otherwise the connection closes |
| Connection.ServerConnection.Dispatch | crates/daemon/src/server.rs:312-566 | Status and Shutdown get the status, a lookup its answer, an index request one progress frame per tick in order and its report, a second Hello or a second index run its refusal; a failure gets its error, and a frame that cannot be encoded is replaced by the error that says so |
| Connection.ServerConnection.HandleConnection | crates/daemon/src/server.rs:210-310 | Over a whole connection the frames handled are those that the received bytes hold, in order; the log accounts for everything written, nothing is dispatched before a version-matching Hello, and the connection is closed by exactly the last frame handled |
| Connection.ReceivedIsStream | crates/daemon/src/server.rs:570-616 | What the loop receives from any bytes is what the stream decoder yields, and then the cut-off tail |
| Connection.SentIsReceived | crates/daemon/src/server.rs:210-224 | Whatever mixture of frames a peer sends is received frame by frame |
| Connection.OneTerminalEach | crates/daemon/src/server.rs:210-310 | Under every id the number of terminal frames written is the number of answerable requests with that id, and for id 0 of framing errors |
| Connection.UnsendableError | crates/daemon/src/server.rs:210-310 | Whatever the serializer, some lookup fails with an error no frame can carry: the request gets no frame and the connection closes |
| Connection.SomeUnfit | crates/daemon/src/codec.rs:8-23 | No serializer that can be inverted fits all error details within the frame limit |
| Connection.PeerReadsReplies | crates/daemon/src/server.rs:618-635 | The bytes a connection writes decode to exactly the frames it wrote, in order |
| Client.DaemonClient.Ask | crates/daemon/src/client.rs:96-125 | An id mismatch is reported if and only if frames of an earlier call were left unread; otherwise the caller gets the daemon's answer |
| Client.DaemonClient.AskStreaming | crates/daemon/src/client.rs:127-165 | An index stream is progress frames and one ending frame, leaves nothing unread and never waits in vain |
| Client.Converse | crates/daemon/src/client.rs:96-165 | A conversation that streams index requests and asks the rest once never sees a mismatched id |
| Matrix.EncodeHeader | crates/storage/src/matrix.rs:31-47 | Magic, version, dimensions, rows, id length and id stand at their offsets in 288 bytes, numbers with the least significant byte first, zeros behind; refuses exactly the model ids over 256 bytes |
| Matrix.HeaderRoundTrip | crates/storage/src/matrix.rs:49-93 | Decoding inverts encoding for every model id that fits, whatever data follows |
| Matrix.HeaderRoundTripBack | crates/storage/src/matrix.rs:49-93 | Only current headers are accepted, and encoding gives the accepted bytes back up to the padding |
| Matrix.EmbeddingMatrix.Create | crates/storage/src/matrix.rs:141-173 | A created matrix stores no rows under the given header |
| Matrix.EmbeddingMatrix.Open | crates/storage/src/matrix.rs:175-210 | Opening succeeds if and only if the header decodes, keeps every byte, and a file that holds rows opens to a matrix that stores them |
| Matrix.EmbeddingMatrix.Grow | crates/storage/src/matrix.rs:284-303 | Growing adds a block of rows and keeps every byte there was |
| Matrix.EmbeddingMatrix.Append | crates/storage/src/matrix.rs:212-232 | An append inside or beyond the mapped capacity stores one more row and keeps the others; a refused one keeps the bytes |
| Matrix.EmbeddingMatrix.Row | crates/storage/src/matrix.rs:234-246 | Row i is the i-th vector appended, bit for bit, and out-of-range rows are refused |
| Matrix.ValueOnDisk | crates/storage/src/matrix.rs:234-246 | Value d of row i stands in the two bytes at 288 + 2 (i dims + d), the least significant first |
| Matrix.EmbeddingMatrix.AsSlice | crates/storage/src/matrix.rs:248-256 | The slice is the concatenation of all rows |
| Matrix.EmbeddingMatrix.CreateCompacted | crates/storage/src/matrix.rs:342-367 | A compacted file stores exactly the given rows and has no spare capacity |
| Matrix.AppendAll | crates/storage/src/matrix.rs:194-232 | Any run of appends, with growth and reopening anywhere, stores all vectors in order |
| Chunker.BodyMinusMembers | crates/indexing/src/chunker.rs:313-328 | However members nest or overlap, the result is exactly the outer text that lies in none of them; if a member begins behind the outer end, only the text up to the furthest member end before it is kept |
| Chunker.ChunkBodies | crates/indexing/src/chunker.rs:117-132 | Each hit's body is the text it claims, and a body of white space is dropped |
| Chunker.PartitionIff | crates/indexing/src/chunker.rs:117-132 | For laminar hits, every visible position under a hit is in exactly one of the bodies that are kept if and only if nothing but containers contains other hits with anything visible in them |
| Chunker.VisibleIsKept | crates/indexing/src/chunker.rs:130-132 | A body is never dropped while a visible position is in it |
| Chunker.NestedFunctionShared | crates/indexing/src/chunker.rs:117-132 | A function inside a function: laminar hits, and a visible position that is in two bodies |
| Splitting.CutAtStatements | crates/indexing/src/chunker.rs:383-411 | The pieces lie end to end, each ends at the first statement end that brings it to half the limit, a piece over the limit has no statement end inside it, a piece under half the limit is followed by a single statement with which it would be over it, and no cut was missed in the rest |
| Splitting.CutsUnique | crates/indexing/src/chunker.rs:383-411 | A text has exactly one cut with these properties |
| Splitting.TilesRejoin | crates/indexing/src/chunker.rs:383-411 | Pieces laid end to end have the text they were cut from |
| Splitting.HardSplit | crates/indexing/src/chunker.rs:434-456 | No line of the body that says anything is lost, doubled or moved; a fragment is within the limit unless it is one line, and has no room for the line that begins the next |
| Splitting.SplitByStatements | crates/indexing/src/chunker.rs:372-432 | The fragments are the pieces of such a cut, each beginning with the signature, and the rest joined to the last of them or on its own; made of contents that are visibly the whole text, in order |
| Splitting.SplitIfOversize | crates/indexing/src/chunker.rs:340-432 | A text within the limit stays whole; a longer one is cut at statements, or by lines where there are none or they leave nothing, into fragments that begin with the signature, of contents that are visibly the whole text, in order |
| Splitting.MergeShowsIff | crates/indexing/src/chunker.rs:412-432 | Merging the rest into the last piece keeps everything visible if and only if the piece does not repeat a visible signature |
| Splitting.MergeLoses | crates/indexing/src/chunker.rs:412-432 | A text over the limit that, split at its statements, loses a visible character of its last fragment |
| NormalizeBody.Normalize | crates/indexing/src/hash.rs:9-48 | The loops compute the normal form |
| NormalizeBody.NormalizedKeeps | crates/indexing/src/hash.rs:9-48 | A body is a reformatting of its normal form: the same inner lines with one indentation more, trailing white space and outer blank lines, and the normal form is trimmed, unindented and not blank at either end |
| NormalizeBody.NormalizeAlikeIff | crates/indexing/src/hash.rs:9-48 | Two bodies normalize alike if and only if both are reformattings of the same lines |
| NormalizeBody.LinesReadBackIff | crates/indexing/src/hash.rs:11-17 | A text written with any mixture of LF, CRLF and CR is read back line by line if and only if no lone CR touches a lone LF |
| NormalizeBody.TouchingEndsMerge | crates/indexing/src/hash.rs:11-17 | A text with a lone CR before a lone LF is the same text as one with a CRLF there |
| NormalizeBody.ReformattingForgotten | crates/indexing/src/hash.rs:19-45 | A common indentation, trailing white space and outer blank lines do not show in the normal form |
| NormalizeBody.NormalizationForgets | crates/indexing/src/hash.rs:9-48 | Two texts that differ in line ends, outer blank lines, trailing white space and a common indentation normalize alike |
| NormalizeBody.NormalizationIdempotent | crates/indexing/src/hash.rs:9-48 | Normalizing twice is normalizing once |
| Embedding.EncodeBatchPadded | crates/inference/src/tokenize.rs:88-130 | Rows of equal width, as wide as the widest, each with one block of ones over exactly its real ids; or the first tokenizer error |
| Embedding.Pool | crates/inference/src/pooling.rs:7-70 | Each output row is the pool of its batch row, and no row disturbs another |
| Embedding.PoolMeaning | crates/inference/src/pooling.rs:7-70 | The mean times the number of real positions is their sum in every coordinate, over all positions if none is real; the last-token pool is the cell of the last real position, or of the last position; the first-token pool is the first cell |
| Embedding.PaddingInvisible | crates/inference/src/pooling.rs:7-70 | A row with a real position pools to what it pools to alone, for mean and last-token under any padding and for the first token under right padding |
| Embedding.EmbedBatch | crates/inference/src/onnx.rs:105-200 | If the network looks only at a row's own ids, a batch embeds each text as if it were alone |
| Embedding.EmbedWithBatchLimit | crates/inference/src/embedder.rs:51-66 | The result does not depend on the batch limit |

## Left out

- SQLite, memory maps and the file system: a table is a value with atomic commits, the manifest rename and the header write are atomic, and row bytes reach the disk before the header that counts them.
- The text of the manifest and its parsing, schema creation, and a crash inside the creation of a store.
- I/O errors in the middle of the append loop of a batch: the code returns without rolling back.
- Crashes between a store commit and its lexical commit: the code does not repair them; what the count check then misses is stated exactly.
- Freshness of generation names, which come from the clock, is a precondition of compaction.
- File identity checks (a store directory replaced under a running daemon), socket paths and permissions, spawning, idle timers, stage timings and logging.
- Matrix.EmbeddingMatrix.Append: the row count is assumed to stay within its 64-bit field.
- Floating point: scores are reals or the mark "not finite"; negative zero and rounding are not modelled. Normalization to unit length is part of an arbitrary last conversion.
- Fusion.Fuse: an rrf_k that is a negative whole number, at which a share is infinite, is not modelled.
- Fusion.AgreementIff: only for rrf_k > -1, where every share is positive; the default is 60.
- Tantivy's scoring, tokenizing and delayed reload: what a query matches, and with what score, is any function of the query, the document and the bag of live documents, a lexical handle is a fixed snapshot, and reading a stored document does not fail.
- SearchInvariance.SearchUnseenByCompaction: corpus statistics count live documents only; Tantivy also counts deleted ones until it merges their segment, so its scores can shift where documents were deleted.
- The similarity of a row and a query, and the score of a document, are any functions of the two; the sum of products is not spelled out.
- The CUDA scorer of the dense index; the model follows the CPU path.
- The heap of the standard library is modelled by its contract, over a linear scan.
- tree-sitter queries, doc comments, qualified names and file preludes: hits are arbitrary ranges. Positions are characters, where the code counts bytes and characters separately.
- The walk that collects statement ends: they are any strictly increasing positions, as sorting and removing repeats leaves them.
- blake3, SHA-256 and bincode: a hash is a value, and the serializer is any pair of functions that are inverse on what it accepts.
- The tokenizer and the network: any functions; that hidden states at real positions depend on the text alone is a hypothesis of the embedding results, and so is that every text has a token (a row without one pools its padding).
- Report counters for excluded, unsupported and seen files, truncated chunks and durations.
- gix: changes, dirty paths and the worktree are inputs. Exclusion globs and the walk are part of them.
- The status counters of a connection's clients and the semaphore that limits searches.
- The plain decoder that does not recover, and errors of the operating system while reading a socket.
- A client call on a connection the server has closed is modelled as refused at the write.
- The MCP server, evaluation, mining and metrics, Python tools, examples and scripts.
