# Explorer indexer: a verified model

The explorer indexer runs inside a blockchain node. It follows the executed chain block by
block, derives transaction, type, transfer, token and consensus indexes from it, keeps them
in one SQLite file together with a cursor, and serves them over an API. The index is only
ever a faster form of something simple: recomputing every table from the blocks up to the
cursor. This project models the code that has to keep the two equal and proves that it does,
over every interleaving of chain growth, live notifications, lost notifications, replay,
failures, crashes and restarts.

## How the proof is built

- `Chain`, `HeaderCodec`, `Extraction`: the node's blocks and the rows one block yields. The
  nested extraction loop is proved against plain recursive definitions; header decoding is
  proved inverse to the packing.
- `Schema`, `Storage`, `Migration`: the tables, what each SQL statement does to them, and the
  writer as a class that updates its tables in place. Migration is a list of statements that
  commit one at a time.
- `Index`: the reference index, stated about the chain alone, without cursors or inserts.
  `AgreementIsUnique` shows it leaves nothing open except token metadata, which depends on
  fetch outcomes and is pinned down by `TokenHistory`.
- `Protocol`: the state machine of chain, notification buffer, loop, transaction, status view
  and reported height. Its invariant says that the next buffered segment starts at or below
  the first unindexed block or that a `Lagged` marker comes before it; the in-transaction
  guard alone (`number <= cursor`) would allow holes
  (`Index.GuardKeepsIndexIff`).
- `Progress`: once the environment is quiet the loop comes to rest, with everything published
  indexed.
- `Recovery`, `Indexer`: no reachable state is stuck, and the concrete loops reach the tip
  whenever the node answers and the disk holds.
- `Health`, `Replays`: what `/health` lets a reader conclude, and the windows successive
  catch-ups replay.
- `Status`, `TxDetail`, `Sql`, `Paging`, `Feeds`, `LatestTxs`, `Hydration`, `Outputs`,
  `Epochs`, `ReadPool`: the reading side, tied back to the reference index.

## What is assumed

- The chain only grows, heights are dense from genesis and fit SQLite's signed integers.
- Notifications are ordered and contiguous except where a `Lagged` marker replaces some; a
  segment is published only after its blocks are committed; the subscription exists before
  catch-up starts and begins at or below the tip; a replay covers its start through the tip
  at the call.
- SQLite commits a transaction whole or not at all; outside a transaction each statement
  commits on its own; a crash leaves the last commit.
- Addresses, digests and 32-byte words are numbers, so hex keys are injective by construction.
- Execution leaves one receipt per transaction. It is assumed only where hydration or the
  type feed needs it; extraction also covers missing receipts, as the code does.
- Outputs are executed batch by batch, one block each, in order (`Outputs.ExecutedInOrder`);
  epoch records are dense with increasing final numbers (`Epochs.Healthy`).

## Where the code and its documentation differ

The model follows the code.

- README.md:136 promises that a stored chain id of another network is a hard error. That
  holds exactly when the file is not outdated; an outdated file of another network is dropped
  and rebuilt silently (`Migration.WrongChainRefusedIffCurrent`).
- README.md:106 and 146 read `/health.lag == 0` as "complete". The lag compares with the tip
  the loop has observed, not with the node's own. A waiting loop always shows zero, over a
  published and not yet indexed block too (`Health.ZeroLagOverUnindexedBlock`). It is complete
  exactly when its `node_tip` equals the node's latest block (`Health.WaitingIsCompleteIff`),
  which a reader can compare with `/blocks` (`total - 1`, read directly; `/stats` is cached).
  In every other phase, at an equal tip, zero lag means complete except over a chain of genesis
  alone (`Health.ZeroLagAtTheTip`).
  Before the first observation an empty index shows zero (`Status.ZeroLagMeaning`).
- src/exex.rs:12-15 and src/status.rs:3-6 say that the lag grows after the loop has ended with
  an error. Nothing updates the observed tip any more, so the lag stays what it was, zero
  included; only the liveness bit tells (`Health.HaltedLagNeverMoves`).
- src/api.rs:395-399 says the transfer fields are absent while the index has not reached the
  block, and that the count and list come from one read. With nothing indexed the gate treats
  the cursor as block 0 and opens for genesis; the list and the count are two statements
  outside any transaction. `TxDetail.EmbeddedTransfersAreExact` gives the exact condition and
  `TxDetail.OpenGateOverGenesis` a wrong answer. A genesis block without transactions, as the
  node builds it, never shows the difference (`TxDetail.ExactWithEmptyGenesis`).
- src/exex.rs:113-117 says each re-replay covers a strictly smaller window. The windows are
  disjoint (`Replays.ReplaysAreDisjoint`). A later one is smaller if the chain grew by fewer
  blocks between the two opens than the first replayed, and only then when nothing else was
  indexed in between; in general, than the cursor advanced (`Replays.WindowShrinksIff`). Every
  reachable state has a run in which it is larger (`Replays.WindowCanGrow`).
- Page size 0 would make every descending page the newest item (`Paging.DescPageIsSlice`);
  every route clamps the size first (`Paging.RoutePagesAreSlices`).
- The status view reads back the highest report except at the u64 maximum, where
  `block + 1` saturates (`Status.ViewIsHighestReport`).
- The two epoch routes give the same execution start except when a predecessor record is
  missing: one shows 0, the other null (`Epochs.RoutesAgreeIff`).
- A closure that panics loses its pooled connection: the pool can then be found exhausted, and
  only then (`ReadPool.ExhaustionIffPanicked`).

## Model

| member | source | states |
|---|---|---|
| Protocol.DurableIndexIsReference | src/exex.rs:82-188 | in every run (growth, multi-block segments, overlap, `Lagged`, failure, crash, restart) the durable tables are the reference index of exactly blocks 0 to cursor, and the totals sum to the number of indexed transactions |
| Protocol.RunsKeepInvariant | src/exex.rs:82-188 | every run from an empty index keeps the full invariant: buffer coverage, stage, views, agreement of the tables and token history |
| Protocol.StepKeeps | src/exex.rs:82-188 | every single step keeps that invariant |
| Protocol.CloseKeeps | src/storage.rs:297-312 | closing a transaction, by commit or by rollback, keeps it |
| Protocol.CloseKeepsLoop | src/storage.rs:424-432 | whenever the guard lets a block through, that block is the one right after the cursor |
| Protocol.CommitsAreConsecutive | src/storage.rs:424-432 | although the guard only rejects `number <= cursor`, over every run a close either changes nothing or indexes cursor + 1: no hole, no double application |
| Protocol.DeliverKeeps | src/exex.rs:82-99 | taking the next notification, segment or `Lagged`, never leaves a gap behind |
| Protocol.DropKeeps | src/exex.rs:90-96 | replacing any stretch of the buffer by a `Lagged` marker keeps the buffer covered |
| Protocol.CatchUpKeeps | src/exex.rs:118-138 | boot, cursor read, tip read and opening the replay keep the invariant; an opened replay covers everything published so far |
| Protocol.CatchUpReachesTip | src/exex.rs:118-138 | when a catch-up finishes, the cursor is at least the tip it read and the height reported is exactly the cursor |
| Protocol.StaleSegmentIsNoOp | src/exex.rs:113-117 | no step on a segment at or below the cursor changes anything durable |
| Health.WaitingIsCompleteIff | src/status.rs:56-59 | in every run a waiting loop shows lag 0, and its observed tip is the cursor and the height reported to the node; it has indexed the whole chain iff that tip is the chain's own |
| Health.LagIsBlocksBehind | src/status.rs:56-59 | in every run and phase the lag is the number of blocks after genesis, up to the observed tip, that the view does not cover |
| Health.ZeroLagAtTheTip | src/status.rs:56-59 | in any phase, at an observed tip equal to the node's, lag 0 holds iff the view covers the chain or the chain is genesis alone |
| Health.ZeroLagOverUnindexedBlock | src/status.rs:56-59 | from every reachable waiting state, growing and publishing one block leaves the lag at 0 over an unindexed block |
| Health.HaltedLagNeverMoves | src/status.rs:1-7 | after an error the bit is off, the lag is frozen, and the index is complete iff it was then and the chain has not grown |
| Health.HaltedIsFrozen | src/exex.rs:75-79 | nothing but the environment moves once the loop has ended |
| Health.LiveExactlyWhileLooping | src/status.rs:66-85 | in every run the liveness bit is set iff the loop is running |
| Health.BufferIsStaleIff | src/exex.rs:82-99 | without a marker in the buffer a waiting loop has indexed everything published iff every buffered segment is at or below the cursor |
| Protocol.ProcessMovesForward | src/status.rs:27-43 | within a process the chain, cursor, view, tip, report and settled token rows never move back; view and report never pass the durable cursor |
| Replays.ReplaysAreDisjoint | src/exex.rs:113-138 | a replay opened later in a process starts at or above the end of every earlier one, so no block is replayed twice |
| Replays.WindowShrinksIff | src/exex.rs:113-138 | the later window is smaller if the chain grew by less than the first replayed, and iff so when nothing else was indexed between; never after an empty first window; in general iff the growth is below the cursor's advance |
| Replays.WindowCanGrow | src/exex.rs:113-138 | from every reachable state there is a run with two opens in one process whose second window is the longer |
| Protocol.TokenRowsAreExplained | src/storage.rs:513-540 | over every run a token has at most two attempts, a second only after nothing was decoded; its row is the last answer with status 0 if a field was decoded, else the number of attempts; it has a row iff it emitted an indexed transfer |
| Protocol.StepMovesTokens | src/storage.rs:513-540 | a boot keeps all token rows or drops them all; any other step adds at most one attempt to a token, keeps its row, and never changes a row that is ok or terminal |
| Protocol.CommitFetchesWhatIsDue | src/exex.rs:155-184 | in every run, committing a block adds exactly one attempt to each token that emitted in it and was never tried or failed once: a failure is retried at the next emission |
| Progress.LoopStepLowers | src/exex.rs:82-188 | every step of the loop's own lowers buffer, phase, blocks left, stage, fetches left, lexicographically |
| Progress.QuietLoopEnds | src/exex.rs:82-188 | no schedule consists of loop steps for ever |
| Progress.StuckMeansDrained | src/exex.rs:82-188 | in every run a live loop has no step left iff it waits over an empty buffer, and then it has indexed everything published and shows it: without any restart |
| Recovery.RestartCatchesUp | src/exex.rs:43-79 | from any reachable state a crash and a restart lead to a waiting loop with every block of the chain indexed |
| Recovery.FinishReplay | src/exex.rs:128-137 | any replay under way can be run to its end, leaving the cursor past its last block |
| Index.IndexingOneBlock | src/storage.rs:424-548 | writing the next block carries the reference index of n blocks to that of n + 1, all six tables |
| Index.ReindexingIsIdempotent | src/storage.rs:17-19 | guard aside, writing an indexed block again changes no row of any table derived from the chain; only the token rows handed in are upserted |
| Index.GuardKeepsIndexIff | src/storage.rs:430-432 | a write the guard lets through keeps the index iff no block jumped over left a trace: no transactions, and outputs named only inside a range the write closes |
| Index.AgreementIsUnique | src/storage.rs:18-23 | two databases with one cursor that agree with a chain hold the same rows; only token metadata may differ |
| Index.AddressesStep | src/storage.rs:434-447 | the address rows after a block are exactly the participations below n + 1, each with its transaction's type |
| Index.TransactionIsFiled | src/extract.rs:250-271 | an indexed transaction is filed under its sender and the address it was sent to or, sent to none, the one it created, with its type, and under no other |
| Index.TypesStep | src/storage.rs:449-463 | the type rows after a block are exactly the (type, block, index) triples below n + 1 |
| Index.CountersStayExact | src/storage.rs:449-472 | any single write, skipped or not, leaves each total equal to its type's row count |
| Index.CountersExactAfterAnyWrites | src/storage.rs:449-472 | after any blocks in any order, duplicates and skips included, each stored total is its type's row count |
| Index.TotalsCountEveryTransaction | src/storage.rs:622-628 | the totals over all types sum to the number of transactions in the indexed prefix |
| Index.ConsensusStep | src/storage.rs:474-492 | each stored range is the extent of the indexed blocks naming the digest, with the epoch and round of the first |
| Index.TransfersStep | src/storage.rs:494-511 | the stored transfers are exactly the conforming logs below n + 1 with their decoded content |
| Index.TokensStep | src/storage.rs:513-540 | a token has a row exactly when it emitted a transfer below n + 1 |
| Index.InsertOrIgnoreLosesNothing | src/storage.rs:434-511 | every extracted row ends up stored with its own content, and a committed block never meets a key of an earlier one |
| Storage.Writer.Migrate | src/storage.rs:334-385 | the statements executed one by one leave the file and the verdict the migration plan says |
| Storage.Writer.ExecuteBatch | src/storage.rs:342-360 | a batch is its statements in order, each on the file the previous one left |
| Storage.Writer.Run | src/storage.rs:334-385 | one statement changes the file as Migration.Execute says |
| Storage.Writer.WriteAddresses | src/storage.rs:434-447 | inserts every row whose key is new and keeps the rows already there |
| Storage.Writer.WriteConsensus | src/storage.rs:474-492 | widens or opens the digest's range; epoch and round stay the first writer's |
| Storage.Writer.WriteTransfers | src/storage.rs:494-511 | inserts every row whose key is new and keeps the rows already there |
| Storage.Writer.ReadCursor | src/storage.rs:408-417 | no row is no cursor, a number is the cursor, anything else is an error |
| Storage.Writer.WriteTypes | src/storage.rs:449-472 | rows inserted and per-type deltas folded into the totals in one pass |
| Storage.Writer.FoldTotals | src/storage.rs:464-472 | folding the deltas in any order adds each to its own total |
| Storage.Writer.WriteTokens | src/storage.rs:513-540 | the status upsert: ok overwrites, a second failure is terminal |
| Storage.Writer.IndexBlock | src/storage.rs:297-312 | one transaction: it fails iff the cursor is corrupt or a statement it runs fails, the commit and the rollback of a skip included, and then leaves the file as it was; otherwise true iff the block is above the cursor, with the whole write applied |
| Storage.Writer.ApplyStatements | src/storage.rs:424-548 | the statements without the commit: success is the whole write, a skip changes nothing, an error may leave part of it |
| Storage.Writer.TokenFetchStates | src/storage.rs:274-289 | fails iff preparing or one of the lookups fails; else exactly the candidates without a row or with status 1 |
| Index.FetchListExact | src/storage.rs:274-289 | a token is fetched iff it is a candidate without a row or with status 1 |
| Index.FetchListInOrder | src/storage.rs:274-289 | in candidate order: the list of a prefix is a prefix of the list |
| TokenHistory.BlockMovesTokenOnce | src/exex.rs:155-184 | committing one block adds exactly one attempt to every candidate without a row or with status 1, none to any other token, keeps every row explained, and leaves ok and terminal rows alone |
| TokenHistory.RecordAppends | src/storage.rs:513-540 | the attempt added is the row's content |
| TokenHistory.OneFieldSuffices | src/node_reads.rs:129-131 | a fetch counts as a success iff at least one field was decoded |
| TokenHistory.RecordExplains | src/storage.rs:513-540 | the upsert computes the status of a token's whole attempt history |
| Migration.CrashesConverge | src/storage.rs:334-385 | crashes between any two statements, any number of times: the next completed reopen gives the same file and verdict as one uninterrupted reopen |
| Migration.CrashesStaySound | src/storage.rs:334-385 | so it ends in a v3 schema with either the old cursor over untouched tables or no cursor over empty ones; an outdated file always becomes a fresh one |
| Migration.ReopenSoundIffRecoverable | src/storage.rs:334-385 | one reopen is sound exactly for outdated files and for v3 tables that are complete or empty |
| Migration.ReopenedIsTarget | src/storage.rs:334-385 | an uninterrupted reopen's final file in closed form |
| Migration.InterruptedOnce | src/storage.rs:342-360 | one cut at any statement keeps the final file, the verdict and recoverability |
| Migration.DropPrefix | src/storage.rs:342-355 | after k drops: data tables go first, `meta` outlives them, the v1 markers outlive `meta` |
| Migration.CreatePrefix | src/storage.rs:357-362 | after k creations: the version stamp comes only after every table exists |
| Migration.WrongChainRefusedIffCurrent | src/storage.rs:364-384 | a file of another chain is refused iff it is not outdated, and then its index is untouched |
| Migration.ReopenKeepsOrRebuilds | src/storage.rs:334-385 | by the contents of `meta`, through any crashes: another version or a v1 table is rebuilt empty for the node's chain; any other file keeps rows, cursor and chain id |
| Migration.GuardBinds | src/storage.rs:364-384 | a file once opened for a chain is refused for every other one and accepted for its own |
| Migration.VerdictByContent | src/storage.rs:364-384 | a current file with an unparsable chain id is refused, with another one refused, with none accepted |
| Indexer.OpenedIndexAgrees | src/exex.rs:43-58 | a sound reopen of a file whose claims hold opens on a reference index |
| Indexer.Indexer.FetchTokens | src/exex.rs:155-179 | succeeds iff the node answers every token of the list; the rows carry its answers in order, status 0 iff something decoded |
| Indexer.Indexer.IndexOne | src/exex.rs:148-185 | succeeds iff every token lookup, every needed fetch and every statement does, applying the block with the fetched rows and keeping database and view in step; else the file is as before |
| Indexer.Indexer.IndexChain | src/exex.rs:142-188 | a segment starting no later than the first unindexed block ends with the cursor at the later of its end and the old cursor; succeeds when nothing outside fails |
| Indexer.Indexer.CatchUp | src/exex.rs:118-138 | cursor read, tip read, opening and delivery of the replay may each fail; succeeds when nothing does, also if the chain grew after the tip read: the whole chain indexed and its last block reported; failure still leaves a reference index in the same schema |
| Indexer.Open | src/exex.rs:43-58 | migrates a file whose earlier reopens were cut short any number of times and loads the cursor: a wrong chain id is refused, else database and view are in step |
| Indexer.Start | src/exex.rs:43-79 | refuses a wrong chain id, else succeeds when nothing outside fails, with the whole chain indexed; live iff it succeeded; succeed or fail, it leaves a file the next start can trust |
| Indexer.StartableLater | src/exex.rs:43-79 | a file a start can trust over a chain can be trusted over every longer one, so starts follow each other for ever |
| Extraction.ExtractBlock | src/extract.rs:238-303 | the nested loop computes the extracted block |
| Extraction.PushTransfers | src/extract.rs:273-286 | the inner loop appends one receipt's transfers and the contracts not seen before |
| Extraction.AddressRowsAt | src/extract.rs:245-271 | two address rows per transaction with its type: the sender, then the address it was sent to or else the one it created |
| Extraction.LogRowsExact | src/extract.rs:264-286 | a receipt's rows are exactly its conforming logs, in log order |
| Extraction.TransferRowsExact | src/extract.rs:264-286 | a block's transfer rows are exactly its conforming logs, in strictly increasing (transaction, log) order |
| Extraction.DistinctTokensExact | src/extract.rs:276-285 | the candidates are the emitting contracts, each once |
| Extraction.DistinctTokensFirstSeen | src/extract.rs:276-285 | and in the order of their first transfer |
| Extraction.ExtractedKeysAreUnique | src/extract.rs:245-286 | no two transfer rows or type rows share a key, and address rows that share one are identical, type included |
| Extraction.DecodeTransferLog | src/extract.rs:311-342 | a log decodes iff it has three topics, the transfer signature and 32 bytes of data |
| Extraction.DecodeInvertsEmission | src/extract.rs:311-342 | decoding inverts emission: token, both addresses under any upper bytes, and the whole 256-bit value |
| Extraction.DecodedLogWasEmitted | src/extract.rs:311-342 | every log that decodes is the emission of what it decoded to |
| Index.AddressRowsAreParticipants | src/extract.rs:250-271 | the address rows are the pairs of a transaction with its sender, with the address it was sent to, or with the one it created if it was sent to none |
| HeaderCodec.DecodeInvertsPacking | src/extract.rs:138-207 | decoding inverts the packing for every epoch and round below 2^32, worker below 2^16, batch index below 2^48 |
| HeaderCodec.RepackingRestoresHeader | src/extract.rs:190-207 | re-packing a decoded header gives back its nonce bytes and difficulty, so distinct packings never collide |
| HeaderCodec.DecodesIffPacked | src/extract.rs:190-207 | a header decodes iff it is not genesis, names an output and its difficulty packs some batch index and worker |
| Status.IndexerStatus.SetLastIndexed | src/status.rs:26-30 | the view becomes the maximum of itself and the saturating block + 1 |
| Status.IndexerStatus.SetNodeTip | src/status.rs:40-43 | the tip becomes the maximum of itself and the report |
| Status.ViewIsHighestReport | src/status.rs:27-43 | however reports are ordered or repeated the view is the highest; it reads back iff that is below the u64 maximum |
| Status.ZeroLagMeaning | src/status.rs:56-59 | zero lag holds iff the view has reached the observed tip or the tip is 0; an empty index before any observation has it too |
| Status.LagCountsBlocksBehind | src/status.rs:56-59 | the lag is the number of blocks from 1 to the observed tip that the view does not cover |
| Outputs.ArrivalOrderIsIrrelevant | src/storage.rs:474-492 | the min/max ranges come out the same for any order and repetition of the rows |
| Outputs.RangesTileIndexedBlocks | src/storage.rs:474-492 | ranges of distinct digests are disjoint and together cover every indexed block except genesis |
| Outputs.RangeBelongsToOutput | src/storage.rs:474-492 | every block inside a stored range names that range's output |
| Outputs.EarlierBatches | src/types.rs:1079-1085 | walking back from batch i meets batches i - 1 to 0 of the same output |
| Outputs.DistanceIsBatchIndex | src/types.rs:1079-1085 | a block's distance from the start of its output's range is its batch index |
| Outputs.ExecBlockNumberExact | src/types.rs:1079-1085 | batch i is given block n iff n is indexed and its header decodes to this output and index i, partly indexed outputs included |
| Outputs.RangesByDigests | src/storage.rs:668-689 | exactly the stored digests of the list, each with its range |
| TxDetail.GateIsOpenIff | src/api.rs:409 | the gate is open for the blocks below the view and for genesis |
| TxDetail.EmbeddedTransfersAreExact | src/api.rs:400-415 | for every interleaving of node read, status read, list read and count read with the loop's steps: the fields are present iff the block is below the view or genesis; below the view they are the first 100 and the number of the receipt's conforming logs; over an empty view exactly if genesis was indexed by the list read or emitted nothing |
| TxDetail.WaitingShowsTransfers | src/api.rs:400-415 | in every run a waiting loop shows the fields for exactly the blocks up to its cursor, and they are the receipt's |
| TxDetail.ExactWithEmptyGenesis | src/api.rs:400-415 | if genesis holds no transaction, the fields are present iff the block is below the view, and then are the receipt's |
| TxDetail.OpenGateOverGenesis | src/api.rs:409 | a genesis with transfers and nothing indexed: the gate is open and the answer is an empty list |
| TxDetail.ReadIsReceiptIff | src/api.rs:622-644 | the two statements give the receipt's answer exactly when the block was indexed at the first or emitted nothing |
| TxDetail.CommittedTransfersStay | src/storage.rs:494-540 | a committed transfer never changes within a process, and its token has a metadata row at that moment and ever after |
| TxDetail.PageTokens | src/api.rs:603-616 | the stored row of every token in the page that has one, and nothing else |
| Sql.OrderedExact | src/storage.rs:572-590 | an ordered read holds every row once, each strictly before the next |
| Sql.OrderedUnique | src/storage.rs:572-590 | it is the only such list |
| Sql.PagesConcatenate | src/storage.rs:572-590 | consecutive LIMIT/OFFSET pages concatenate to a prefix, enough of them to the whole list |
| Sql.EachPositionOnOnePage | src/storage.rs:572-590 | each position lies on exactly one page at exactly one place |
| Paging.DescPageIsSlice | src/node_reads.rs:955-972 | the arithmetic page is the LIMIT/OFFSET slice of the descending list, with exact and with saturated offset, iff the page size is positive or the list empty |
| Paging.RoutePagesAreSlices | src/api.rs:156-160 | for any query a route serves the slice of the page asked for at the clamped size, by arithmetic and by saturated offset alike |
| Paging.ParamsFollowQuery | src/api.rs:156-160 | page 0 and 25 rows unless asked, the page asked for, 1 to 100 rows, the offset exact up to the u64 maximum |
| Paging.ConsensusPageIsSlice | src/node_reads.rs:979-984 | the same over output numbers 1 to total, with exact and with saturated offset, iff the page size is positive or the list empty |
| Paging.ConsensusPagesPartition | src/node_reads.rs:979-984 | those pages concatenate to total down to 1 |
| Paging.PagesPartition | src/node_reads.rs:955-972 | the pages concatenate to the reversed range |
| Feeds.AddressFeedExact | src/storage.rs:710-738 | the UNION feed is the strictly descending list of transfers with the address on either side, a self-transfer once, and the count is its length |
| Feeds.AddressFeedPages | src/storage.rs:722-738 | its pages concatenate to it |
| Feeds.TxTransfersExact | src/storage.rs:764-795 | an indexed transaction's list and count are its receipt's conforming logs in log order |
| Feeds.ReceiptTransfersExact | src/extract.rs:311-342 | those are, by strictly increasing log position, the logs with three topics, the signature and 32 bytes of data, with the decoded content |
| Feeds.AddressTxFeedExact | src/storage.rs:562-617 | an address page lists exactly the address's indexed transactions, of the type if one is given, newest first, all hydratable; the count is the list's length |
| Feeds.TypeFeedExact | src/storage.rs:622-645 | a type page lists exactly the indexed transactions of the type, the counter is its length, all hydratable |
| Feeds.TokenFeedExact | src/storage.rs:741-761 | the token feed is the strictly descending list of the token's transfers, and the count is its length |
| Feeds.StoredRowsAreHydratable | src/node_reads.rs:275-277 | the transaction of every stored transfer, address and type row can be replayed |
| TxDetail.RowsStayHydratable | src/api.rs:576-601 | so can it by a node read any number of steps after the database read |
| LatestTxs.LatestTxsPage | src/node_reads.rs:206-266 | fails iff some transaction of the page has no receipt; otherwise gives what hydrating the page's pointers one by one gives, and the chain's transaction total |
| LatestTxs.DataNewestFirst | src/node_reads.rs:237-262 | the ascending entries come out last one first, or fail on a missing receipt |
| LatestTxs.BlockContexts | src/node_reads.rs:218-235 | exactly the distinct blocks of the page, each with its own receipts and base fee |
| LatestTxs.LatestPageIsSlice | src/node_reads.rs:212-216 | the page is the LIMIT/OFFSET slice of all transactions newest first, iff the page size is positive or there are none |
| LatestTxs.LatestPagesPartition | src/node_reads.rs:206-266 | the pages together are every transaction of the chain, once each, newest first |
| LatestTxs.TypeFeedFiltersLatest | src/storage.rs:622-645 | a type's stored feed is the chain-wide feed of the indexed blocks with other types left out, and its total that list's length |
| LatestTxs.TotalsMeetIff | src/storage.rs:622-628 | the stored totals sum to the node's transaction total iff no transaction lies above the cursor |
| Hydration.HydratePointers | src/node_reads.rs:278-330 | succeeds iff every pointer is hydratable; equals the one-lookup-per-pointer answer, order and duplicates kept; replays each distinct block once, in first-seen order |
| Hydration.RowIsTheTransaction | src/node_reads.rs:315-324 | every field of an answered row against its block: sender, transaction, success, base fee, timestamp, position, and as gas the difference to the previous receipt |
| Hydration.ServedGasAddsUpIff | src/node_reads.rs:927-937 | the gas of a block's first k rows adds up to receipt k - 1's cumulative figure iff the receipts so far are cumulative |
| Hydration.DataFromBlocks | src/node_reads.rs:294-327 | from replayed blocks: the one-lookup-per-pointer answer, or failure iff some pointer dangles |
| Hydration.FirstSeenExact | src/node_reads.rs:940-948 | the block list names exactly the blocks mentioned, each once |
| Hydration.FirstSeenFirst | src/node_reads.rs:940-948 | in the order of first mention: further pointers only add behind |
| Hydration.DistinctBlocks | src/node_reads.rs:940-948 | each block number once, in first-seen order |
| Hydration.ReplayBlocks | src/node_reads.rs:283-292 | stops at the first block the node lacks, otherwise holds every block asked for |
| Hydration.GasAddsUpIffCumulative | src/node_reads.rs:927-937 | the recovered per-transaction gas adds up to the block's last cumulative value iff the receipts are cumulative, and never to less |
| Epochs.BlocksTile | src/api.rs:1149-1191 | every block number lies in the execution range of exactly one epoch up to the current one |
| Epochs.OutputsTile | src/api.rs:1149-1191 | the same for output numbers from 1; 0 is in no epoch |
| Epochs.BoundsComeFromRecords | src/api.rs:795-828 | a closed epoch ends with its own record's final block and final output, the next starts one past them, the first with block 0 and output 1, on both routes |
| Epochs.OwnerByRecords | src/api.rs:1149-1191 | a block or output lies in an epoch iff it is above the predecessor's final number and at most its own |
| Epochs.EpochsAbut | src/api.rs:795-828 | on both routes an epoch is open iff it is current, even when its record exists, and the next one starts right after a closed one's end, blocks and outputs |
| Epochs.RoutesAgreeIff | src/api.rs:795-828 | both routes give the same execution bounds iff the predecessor record is readable or not needed |
| ReadPool.ConnectionsConserved | src/storage.rs:826-875 | in every run no connection has two holders and free, in-use and lost ones number four |
| ReadPool.NeverExhaustedWithoutPanic | src/storage.rs:853-875 | while closures return, Ok or Err, nobody finds the pool exhausted |
| ReadPool.MoveKeeps | src/storage.rs:853-875 | every move of any caller keeps permits and connections accounted for |
| ReadPool.LostConnectionExhausts | src/storage.rs:853-875 | once permits outnumber connections, enough simultaneous callers make one fail |
| ReadPool.ExhaustionIffPanicked | src/storage.rs:853-875 | with no call in progress, later calls can find the pool exhausted iff an earlier closure panicked |

## Left out

- `leader_counts`, `build_epoch_certificate`, `tx_type_name`, `parse_tx_type`: counting and table look-ups without state to keep consistent.
- `token_info`: the live supply read is an EVM call.
- HTTP routing, CORS, JSON shapes, error-to-status mapping, command line and process start-up.
- The node, the consensus store, BLS, keccak, ABI decoding and EVM calls: the node appears as the chain's content, token metadata as an arbitrary fetch outcome, `sender.create(nonce)` as a given address.
- SQLite internals, WAL, PRAGMAs, CREATE INDEX statements (they hold no rows) and integers beyond SQLite's signed range.
- Storage.Writer.IndexBlock: a failing statement is one of eight steps; within a table's rows the point of failure is not told apart, since the rollback undoes all of it.
- Storage.Writer.Migrate: a statement that fails there ends the start-up after a prefix of the plan, which is the interruption of Migration.InterruptedOnce; it is not a path of the method.
- Health.HaltedLagNeverMoves: the loop's end is an error or a panic; the orderly end at node shutdown, which stops the API too, is not a separate step.
- Protocol.RunsKeepInvariant: a boot is one completed reopen that keeps the index or drops it whole; that a reopen has only these two outcomes is what the Migration lemmas show. Opening with a wrong chain id keeps the process down.
- Indexer.Start: runs without interference and covers the chain as the replay was opened; later growth and the interleavings are in Protocol.
- Storage.Writer.FoldTotals: visits the entries in an arbitrary order, the code in key order; the result is proved not to depend on it.
- Index.CountersExactAfterAnyWrites: totals are unbounded; the 64-bit limit of the stored counter is not modelled.
- Outputs.ExecBlockNumberExact: `first + index` is unbounded; heights far below the u64 limit make the difference unobservable.
- Agreement of `total` and `items` in list routes across concurrent writes: the code reads them separately, so paging results are stated on a fixed database.
- Float conversions, hex and base58 formatting.
