# DBPod, modelled and proved in Dafny

DBPod is a PostgreSQL client. Its backend (Rust) runs statements in session actors, streams rows to
the window, retains large results within memory budgets and commits grid edits; its window
(TypeScript) holds results, drafts and tabs, and turns values into text. This project models the
parts of both that carry protocols, ledgers and printer/parser pairs, and proves what they promise.

| part | files |
|---|---|
| Memory budgets | `Ledger.dfy` (the operations), `LedgerRuns.dfy` (any number of stores, any schedule) |
| Table paging | `TablePaging.dfy` (queue, offset, cutting a page), `TablePagingRuns.dfy` (runs with commits) |
| Streaming | `Chunker.dfy` (rows to chunks), `Execution.dfy` (one execution's events), `AckWindow.dfy` (the two-chunk window), `ResultStore.dfy` and `Splices.dfy` (the receiver), `StreamProtocol.dfy` (all of it over any channel) |
| Paged query results | `PagedResult.dfy` (retained rows by offset, and the client that asks for them) |
| Session ownership | `Ownership.dfy` (busy flag, claims, mailbox) |
| Edits | `EditPlanner.dfy`, `EditCommit.dfy`, `LostUpdates.dfy`, `EnteredValues.dfy` (plans, one transaction, no lost update, what the server is brought), `Drafts.dfy`, `GridDrafts.dfy`, `DraftRuns.dfy` (drafts that stay on their rows) |
| Text | `Tsv.dfy` and `TsvText.dfy`, `Csv.dfy`, `ArrayText.dfy`, `Numeric.dfy`, `NumericWire.dfy`, `Temporal.dfy`, `TemporalWire.dfy`, `Interval.dfy`, with `Quoting.dfy`, `Decimal.dfy`, `Clock.dfy` and `Calendar.dfy` below them |
| SQL text | `SqlLexing.dfy`, `Stripper.dfy`, `Splitter.dfy`, `SplitOnce.dfy`, `SqlTokens.dfy` and `SqlReader.dfy` (the cuts said of a text's tokens), `CommandWords.dfy`, `Transactions.dfy` |
| Window state | `Workspace.dfy` (the reducer and its invariant), `WorkspaceEffects.dfy` (what each action does), `Fuzzy.dfy` |
| Shared | `Wrappers.dfy` (Option, Result), `Sums.dfy`, `Rows.dfy`, `Names.dfy` |

`dafny verify dfyconfig.toml` checks everything. Code that updates objects in place is a class here,
loops are methods with invariants, and each such method is tied to a specification function that the
lemmas are about; what those functions mean is stated apart from them, in plain sums, readers and
encoders of their own, or the state before and after. Concurrency is a step system: what the lemmas quantify over is the schedule. Every
printer has a reader of its own, written from the format's rules and not from the printer.

Where the code does not do what its comments or tests suggest, the code is modelled and a concrete
case shows the difference; the exact condition is proved beside it wherever a caller could check one
(`FollowsIff`, `RequestGapFreeIff`, `InsertShiftGapFreeIff`, `KeyOnlyLockIff`, `StrandedIffCloseSent`,
`ServesRetainedIff`, `CsvRoundTripIff`):

* `Transactions`: the tracked state leaves the server's in three cases of a statement. A failed PREPARE TRANSACTION
  ends the transaction on the server, a prepared statement may be called `transaction`, and a COMMIT
  cancelled in the row stream before it takes effect does not end the block, against the comment
  that says every COMMIT error does. Errors while a statement is prepared never drift. A table page
  that fails, or loses the connection, inside a block leaves the tracker in the block.
* `TablePagingRuns`: the page offset moves before its conversion to 32 bits can fail and before the
  reply is known to arrive, and the offset shift after a commit assumes that inserted rows sort among
  the rows already shown.
* `PagedResult`: a paged query stopped before its first page or first mebibyte sends none of the rows
  it retained and offers none of them afterwards.
* `LostUpdates`: without a row version, an edit that shows only key columns is accepted with no lock.
* `Ownership`: a request sent after its session's Close is thrown away with its busy flag up.
* `Execution`: an execution abandoned before it starts reports Failed without Started.
* `Csv`: with the formula defence on, a guarded cell does not read back.

## Model

| member | source | states |
|---|---|---|
| Ledger.LargeValueStore.Reserve | src-tauri/src/infrastructure/postgres/large_values.rs:151-169 | a reservation is admitted exactly when store, connection and app total, each with the bytes added in plain sums, stay at 536870912, 1073741824 and 2147483648 at most, and then charges store and connection alike; otherwise nothing moves |
| Ledger.LargeValueStore.Release | src-tauri/src/infrastructure/postgres/large_values.rs:172-187 | a refund lowers store and connection by the same amount and drops an entry that reaches zero |
| Ledger.LargeValueStore.Drop | src-tauri/src/infrastructure/postgres/large_values.rs:374-386 | dropping a store gives its whole charge back to its connection and touches no other |
| Ledger.LargeValueStore.ReserveRow | src-tauri/src/infrastructure/postgres/large_values.rs:138-149 | a row starts exactly when four times its bytes plus 256 per column still fit those three sums, and then holds exactly that |
| Ledger.RowBudget.Account | src-tauri/src/infrastructure/postgres/large_values.rs:50-61 | one decoded value tops the reservation up to the larger of wire and decoded estimate exactly when what is missing still fits the three sums, and otherwise leaves it alone and says no |
| Ledger.RowBudget.Keep | src-tauri/src/infrastructure/postgres/large_values.rs:44-46 | a kept row keeps everything it reserved |
| Ledger.RowBudget.Drop | src-tauri/src/infrastructure/postgres/large_values.rs:64-76 | a row thrown away gives back what decoding added and keeps its wire charge |
| Ledger.DecodeRow | src-tauri/src/infrastructure/postgres/decoder.rs:64-78 | decoding a row value by value costs exactly max(wire, decoded) when kept, exactly the wire estimate when refused part way, nothing when refused at once |
| Ledger.EstimateExact | src-tauri/src/infrastructure/postgres/large_values.rs:17-19 | an estimate inside the result budget never saturated |
| LedgerRuns.StepKeepsInv | src-tauri/src/infrastructure/postgres/large_values.rs:17-76 | every step of every store keeps the books: retained is the sum of its rows, usage the sum of its stores, all limits held |
| LedgerRuns.EveryReachableStateBalances | src-tauri/src/infrastructure/postgres/large_values.rs:138-187 | after any schedule of any number of stores the books balance and no limit is passed |
| LedgerRuns.NothingSaturates | src-tauri/src/infrastructure/postgres/large_values.rs:172-187 | no saturating subtraction ever has less than it takes away |
| LedgerRuns.KeptRowCost | src-tauri/src/infrastructure/postgres/large_values.rs:28-76 | in any reachable state a kept row is charged max(wire estimate, estimate of all its decoded bytes), a refused one its wire estimate |
| LedgerRuns.RowOpensIff | src-tauri/src/infrastructure/postgres/large_values.rs:138-169 | in every reachable state a row is added, charged four times its bytes plus 256 per column, exactly when that fits store, connection and app; otherwise nothing changes |
| LedgerRuns.ValueTakenIff | src-tauri/src/infrastructure/postgres/large_values.rs:50-61 | in every reachable state a value is taken and its row keeps decoding exactly when the row has enough reserved or the rest fits the three limits; otherwise the row stops with its charge unchanged |
| LedgerRuns.LastDropClearsEntry | src-tauri/src/infrastructure/postgres/large_values.rs:374-386 | when a connection's last store is dropped, its usage entry is gone |
| LedgerRuns.RowsWithColumnsFitOffsets | src-tauri/src/infrastructure/postgres/large_values.rs:278-311 | rows with at least one column are too few, within the budget, to overflow the 32-bit offsets |
| TablePaging.LongestFitUnique | src-tauri/src/infrastructure/postgres/large_values.rs:339-371 | there is one longest prefix of queued rows that fits a transfer |
| TablePaging.Paging.SplitPage | src-tauri/src/infrastructure/postgres/large_values.rs:339-371 | cuts the longest prefix that fits, leaves the rest queued, advances the offset by what left, refuses a first row that is too large |
| TablePaging.Paging.ServePending | src-tauri/src/infrastructure/postgres/large_values.rs:239-250 | a non-empty queue is served without a query; an empty one asks for one |
| TablePaging.Paging.PushPending | src-tauri/src/infrastructure/postgres/large_values.rs:252-257 | a charged row joins the end of the queue |
| TablePaging.Paging.FinishTablePage | src-tauri/src/infrastructure/postgres/large_values.rs:262-270 | the page just queried is cut like any other and remembers whether the table goes on |
| TablePaging.Paging.ShiftTableOffset | src-tauri/src/infrastructure/postgres/large_values.rs:272-276 | a commit moves the offset by inserted less deleted rows |
| TablePaging.Paging.FetchTablePage | src-tauri/src/infrastructure/postgres/session_actor.rs:385-443 | a queried page queues each row once charged, stops at the first refusal, an interruption or the limit, and then serves what it has |
| TablePagingRuns.RequestTurn | src-tauri/src/infrastructure/postgres/session_actor.rs:400-442 | what one request hands out is exactly the table between the old and the new offset, and the queue starts at the new one |
| TablePagingRuns.EveryRunIsGapFree | src-tauri/src/application/query_service.rs:389-436 | over every run of requests and commits in which no page was lost, the client has been handed exactly the table up to the offset, and the queue is the rows after it |
| TablePagingRuns.SmallTablesLoseNothing | src-tauri/src/application/query_service.rs:389-436 | and none is lost while every reply is delivered and the table has at most 4294967295 rows |
| TablePagingRuns.EveryReplyIsHonest | src-tauri/src/infrastructure/postgres/large_values.rs:339-371 | has_more with no rows never happens, and no has_more means the table is exhausted |
| TablePagingRuns.AnswerIff | src-tauri/src/infrastructure/postgres/session_actor.rs:385-443 | a request is answered with an error exactly for changed columns, a broken query, a budget that refuses the first row, a first row past 1048576 bytes or an offset past 32 bits, and otherwise with a page, empty only when there is nothing to hand out; rows decoded before a break stay queued |
| TablePagingRuns.HasMoreIff | src-tauri/src/infrastructure/postgres/session_actor.rs:400-443 | a page says has_more exactly when rows stay queued behind it, or the query it came from was stopped by the budget or returned its full 200 rows |
| TablePagingRuns.FinalPageCompletes | src-tauri/src/infrastructure/postgres/large_values.rs:239-276 | after a delivered final page, with none lost before it, the client holds the whole table from where it began |
| TablePagingRuns.RequestGapFreeIff | src-tauri/src/infrastructure/postgres/large_values.rs:339-371 | a request keeps this exactly when no rows leave the queue with it, or the offset before it plus the rows it hands out fits 32 bits and its reply is delivered |
| TablePagingRuns.OffsetPast32BitsLosesRows | src-tauri/src/infrastructure/postgres/large_values.rs:339-371 | from an opened table of 4294967296 rows one request loses the last row: the offset has moved before the conversion fails |
| TablePagingRuns.UndeliveredPageLosesRows | src-tauri/src/infrastructure/postgres/session_actor.rs:245-246 | a page whose request was dropped before its reply is lost, the offset being past it |
| TablePagingRuns.CommitKeeps | src-tauri/src/infrastructure/postgres/large_values.rs:272-276 | one shift by the totals agrees with moving the offset edit by edit, for deletes and inserts among the rows shown |
| TablePagingRuns.InsertShiftGapFreeIff | src-tauri/src/infrastructure/postgres/large_values.rs:272-276 | shifting the offset for an inserted row is right exactly when the row sorts among the rows already shown |
| Chunker.FlushChunk | src-tauri/src/infrastructure/postgres/session_actor.rs:722-749 | a chunk takes the next number and the whole buffer, or nothing leaves and the flush fails for good |
| Chunker.MakeRoom | src-tauri/src/infrastructure/postgres/session_actor.rs:613-637 | a row that would pass one MiB starts the next chunk |
| Chunker.ReceiveRow | src-tauri/src/infrastructure/postgres/session_actor.rs:554-637 | one server row is buffered, retained or refused in order, never skipped; it is refused exactly for the budget, for more than 1048576 bytes, or past the row cap of an unpaged result |
| Chunker.StreamRows | src-tauri/src/infrastructure/postgres/session_actor.rs:554-657 | the chunks concatenate to a prefix of the server rows, are numbered from 0, non-empty and inside row and byte limits; with no failed flush every row before the first one that is refused by the budget, over 1048576 bytes or past the cap is sent or retained, truncated exactly when there is such a row; a chunk ends only at 50, 100 or 200 rows, where the next row would pass the byte limit, after the first page, or at the end; nothing follows a failed flush; untruncated means complete; a paged result, truncated or not, has sent its first page unless a flush failed or the stream ended in an error, and then nothing before its first page or mebibyte; row_count is what was handed over |
| Execution.EmitChunks | src-tauri/src/infrastructure/postgres/session_actor.rs:722-749 | the events of the chunks come after the opening ones, in chunk order |
| Execution.RunExecution | src-tauri/src/infrastructure/postgres/session_actor.rs:446-718 | each run ends in the terminal its stage, its cancel flag and its stream call for, with the counts the stream had; its events are Started, the columns where there are any, the chunks one by one and the command where there is one; a run that gets to its rows has all StreamRows promises |
| Execution.Execute | src-tauri/src/infrastructure/postgres/session_actor.rs:145-209 | whatever the run does and wherever it is abandoned, one terminal event is sent, last, after a prefix of the ordered events; only an abandonment before the first event leaves out Started; what is sent is all the run announces, or its first k events when abandoned after k |
| Execution.OneTerminal | src-tauri/src/domain/events.rs:56-122 | no terminal event stands before the last event |
| AckWindow.AckKeepsBalance | src-tauri/src/infrastructure/postgres/session_actor.rs:66-81 | no acknowledgement, repeated, late, cumulative or invented, unbalances permits against unacknowledged chunks |
| AckWindow.AcksCommute | src-tauri/src/infrastructure/postgres/session_actor.rs:66-81 | only the highest acknowledged number counts, in whatever order acks arrive |
| AckWindow.ExecutionState.Ack | src-tauri/src/infrastructure/postgres/session_actor.rs:66-81 | a number never sent is refused, a stale one or one past 63 bits changes nothing, and a new one becomes the last acknowledged and frees exactly the permits of the chunks up to it |
| AckWindow.ExecutionState.TakePermit | src-tauri/src/infrastructure/postgres/session_actor.rs:722-735 | a permit is taken only when one is free, and only an ack brings it back |
| AckWindow.ExecutionState.Publish | src-tauri/src/infrastructure/postgres/session_actor.rs:736-749 | a chunk is recorded as sent under the permit taken for it |
| AckWindow.AckFreesUpTo | src-tauri/src/infrastructure/postgres/session_actor.rs:66-81 | after an ack the free permits are two less the chunks still unacknowledged |
| StreamProtocol.StepKeepsInv | src/shared/ipc/queryChannel.ts:17-68 | every step of sender, channel and receiver keeps window and receiver in step |
| StreamProtocol.ReceiverHoldsPrefix | src/entities/result/resultStore.ts:88-114 | over a channel that may drop, repeat or reorder: at most two chunks are unacknowledged and the rows shown are a prefix of the rows sent |
| StreamProtocol.InOrderNeverFails | src/entities/result/resultStore.ts:88-114 | over a lossless in-order channel the sequence error is unreachable |
| StreamProtocol.InOrderIsComplete | src/entities/result/resultStore.ts:88-114 | in-order delivery leaves exactly the rows of the chunks published |
| StreamProtocol.NoPermitMeansUnacked | src-tauri/src/infrastructure/postgres/session_actor.rs:43-81 | with no permit free some chunk waits for its ack, and acknowledging the last one frees both |
| Splices.SortSorts | src/entities/result/resultStore.ts:66-71 | the sort used before splicing is descending and a permutation |
| ResultStore.Store.Create | src/entities/result/resultStore.ts:49-57 | a new result replaces the old rows array, so the old execution can be told apart; it is refused exactly for a running result and for pending or locked edits |
| ResultStore.Store.AppendRows | src/entities/result/resultStore.ts:88-114 | rows are appended in place only under the expected number; any other number marks a protocol error and adds nothing |
| ResultStore.Store.SetTerminal | src/entities/result/resultStore.ts:120-133 | a terminal ends the run and decides whether more rows can be asked for |
| ResultStore.Store.OnMessage | src/shared/ipc/queryChannel.ts:20-68 | a message of a current execution reaches its tab; one of a replaced execution changes nothing |
| ResultStore.Store.ReplaceThenReceive | src/shared/ipc/queryChannel.ts:81-83 | however the late messages of a replaced execution fall between those of the current one, the tab ends as the current one alone leaves it |
| ResultStore.EndOffersMore | src/entities/result/resultStore.ts:120-133 | after chunks in order a first table page offers more exactly when it completed whole with at least a page of rows, a pageable query exactly when it did not fail and counts more rows than were streamed, any other result never |
| ResultStore.WrongNumberIsFinal | src/entities/result/resultStore.ts:88-114 | after one chunk out of sequence the tab stays failed with the rows it had and offers no more, whatever comes |
| ResultStore.ReplacedAlone | src/entities/result/resultStore.ts:59-64 | replacing a row changes that row alone, and none for an index outside the rows |
| ResultStore.CountFollowsRows | src/entities/result/resultStore.ts:66-78 | the row count keeps its distance from the rows held when rows are taken out or pushed in |
| ResultStore.NumberedChunksJoin | src/entities/result/resultStore.ts:88-114 | chunks received in order leave all their rows in order and no protocol error |
| PagedResult.PageEndUnique | src-tauri/src/infrastructure/postgres/large_values.rs:278-311 | row cap, byte ceiling and the at-least-one-row rule pick one page end |
| PagedResult.RetainedRows.ReadRows | src-tauri/src/infrastructure/postgres/large_values.rs:278-311 | a page is the retained rows from the offset to that end, with progress even past the byte ceiling |
| PagedResult.DrainIsTail | src-tauri/src/infrastructure/postgres/large_values.rs:278-311 | reading page after page gives every remaining row once, in order |
| PagedResult.RowOrderErrorIff | src/shared/ipc/queryChannel.ts:134-155 | the client's row-order error fires exactly when a page ends past 32 bits |
| PagedResult.StepKeepsInv | src/shared/ipc/queryChannel.ts:134-155 | loads, failed loads and local edits keep the next offset at the rows delivered; edits never move it |
| PagedResult.ShownIsDelivered | src/entities/result/resultStore.ts:135-144 | without local edits the tab shows exactly the rows delivered, in the order they came |
| PagedResult.ServesRetainedIff | src/entities/result/resultStore.ts:120-133 | a paged result that completed or was cancelled has given the client every retained row, once, in order, whenever nothing more is offered, over every run of loads, failed loads and local edits, exactly when its terminal event counts every retained row |
| PagedResult.FailedServesRetainedIff | src/entities/result/resultStore.ts:120-133 | one that failed does so exactly when everything retained was streamed |
| PagedResult.PagedQueryCompletes | src/entities/result/resultStore.ts:59-78 | a paged query that completed with no failed flush, cut short by the memory budget or not, gives the client every row it retained, once, in order, whatever was edited meanwhile; untruncated, every server row |
| PagedResult.RestCanBeLoaded | src/shared/ipc/queryChannel.ts:134-155 | at any point of any such run the rest can still be loaded, up to 4294967295 retained rows |
| PagedResult.EarlyStopServesNothing | src-tauri/src/infrastructure/postgres/session_actor.rs:613-656 | a paged query stopped by an error or a cancellation before its first page or first mebibyte has sent nothing, counts no row, and no run ever delivers a row it retained |
| PagedResult.StoppedQueryLosesRow | src-tauri/src/infrastructure/postgres/session_actor.rs:649-656 | one row received and then a cancellation: the row is retained and never served |
| Ownership.SessionClaim.Drop | src-tauri/src/application/query_service.rs:359-365 | a claim still held lowers the flag when it goes |
| Ownership.SessionHandle.RequestExecute | src-tauri/src/application/query_service.rs:160-237 | an execution request is a run of claim and send: it is taken exactly when the flag was down, the actor is there and fewer than four messages wait, and is then queued with the flag up; a refusal leaves flag and mailbox as they were |
| Ownership.SessionHandle.FetchPageRequest | src-tauri/src/application/query_service.rs:370-436 | whichever way a page request ends, the flag is down again unless the claim went over to the session with the request queued, which it does exactly when the flag was down, rows have to be asked for and there is room; each way is a run of the step system |
| Ownership.StepKeepsInv | src-tauri/src/infrastructure/postgres/session_actor.rs:127-258 | claim, send, receive, abandon and finish keep one holder per raised flag |
| Ownership.BusyIffOneHolder | src-tauri/src/application/query_service.rs:178-237 | on a live session the flag is up exactly while one caller, message or actor has the claim |
| Ownership.FreeSessionServes | src-tauri/src/infrastructure/postgres/session_actor.rs:127-258 | a free session takes either request to its actor, is busy until the actor is done, and is then as it was; a busy one turns both away and is not closed without a rollback |
| Ownership.MailboxNeverFull | src-tauri/src/infrastructure/postgres/session_actor.rs:127-143 | on a live session at most one request and one close are queued, so a send never fails for room |
| Ownership.ReleaseOnlyByHolder | src-tauri/src/application/query_service.rs:351-365 | a release happens once, by the only holder, and leaves none |
| Ownership.CloseLosesClaimIff | src-tauri/src/infrastructure/postgres/session_actor.rs:247-256 | taking Close leaves the flag up with no holder exactly when a request is still queued |
| Ownership.StrandedIffCloseSent | src-tauri/src/application/query_service.rs:52-98 | a request that finds room is lost, its flag up over every continuation, exactly when the Close of its session was sent before it |
| Ownership.CloseCanStrandClaim | src-tauri/src/application/query_service.rs:52-98 | such a run: an execution claims, a close with rollback takes the handle and is sent first, then the request is sent and thrown away with the mailbox |
| EditPlanner.ValidateIdentity | src-tauri/src/application/edit_service.rs:119-138 | an identity passes exactly when relation and every key column match |
| EditPlanner.PkConditions | src-tauri/src/application/edit_service.rs:140-161 | one condition per key column, in key order, with the next placeholders |
| EditPlanner.ShownConditions | src-tauri/src/application/edit_service.rs:163-211 | without a version, each shown non-key column is compared with what the user saw |
| EditPlanner.WhereClause | src-tauri/src/application/edit_service.rs:163-211 | the WHERE is the key, then the version or the shown columns; it is refused exactly when neither exists |
| EditPlanner.SetClause | src-tauri/src/application/edit_service.rs:213-266 | each changed column is assigned once, in sorted order, unless unknown, generated or not bindable; what its parameter brings is EnteredValues.SetsCarryEntered |
| Names.LessIff | src-tauri/src/application/edit_service.rs:213-266 | columns are listed in dictionary order |
| EditPlanner.PlanUpdate | src-tauri/src/application/edit_service.rs:213-266 | an update is accepted exactly when identity, columns and lock are, and then is the specified statement |
| EditPlanner.PlanDelete | src-tauri/src/application/edit_service.rs:268-288 | the same for a delete |
| EditPlanner.InsertList | src-tauri/src/application/edit_service.rs:290-343 | columns left to their default take no placeholder; the rest are numbered in sorted order |
| EditPlanner.PlanInsert | src-tauri/src/application/edit_service.rs:290-343 | the same for an insert |
| EditCommit.PlanKind | src-tauri/src/application/edit_service.rs:452-487 | one pass plans every change of one kind, in order, or fails |
| EditCommit.Preview | src-tauri/src/application/edit_service.rs:364-545 | a change set is planned exactly when it is non-empty, within 500 rows, of distinct rows, on a writable base table with a key and no reserved column, for a held result of this connection with no query running, of acceptable changes, and within the preview memory; the plans are those of the save order |
| EditCommit.SaveOrderPermutes | src-tauri/src/application/edit_service.rs:452-487 | reordering for saving loses and repeats no change |
| EditCommit.OnlyKeepsOrder | src-tauri/src/application/edit_service.rs:452-487 | two changes of one kind keep their order |
| EditCommit.SaveOrderSorts | src-tauri/src/application/edit_service.rs:452-487 | deletes come first, then updates, then inserts |
| EditCommit.PlaceholdersInOrder | src-tauri/src/application/edit_service.rs:140-211 | in every plan and key lookup the placeholders are 1 to n in order, one per parameter |
| EditCommit.WherePinsKey | src-tauri/src/application/edit_service.rs:140-211 | two rows that match one plan agree on every key column |
| EditCommit.AtMostOneMatch | src-tauri/src/application/edit_service.rs:140-211 | an update or delete never matches two rows of a table with a unique key |
| EditCommit.Commit | src-tauri/src/application/edit_service.rs:656-797 | Completed means every statement ran and the table is the result; an unknown outcome leaves it as before or, only once every statement ran, as the result; any other end leaves it as it was; it stops exactly at the first statement whose answer does not come, that fails, finds no row or reads back too large a row, and says so; otherwise the reply to COMMIT decides; the safety violation is unreachable |
| LostUpdates.VersionedHitsAreCurrent | src-tauri/src/application/edit_service.rs:163-211 | every version-locked statement hit exactly one row, which was untouched and still had the version the user saw |
| LostUpdates.ShownHitsAreCurrent | src-tauri/src/application/edit_service.rs:163-211 | with the displayed-values lock the row hit still showed every value the user saw |
| LostUpdates.UnhitRowsUnchanged | src-tauri/src/application/edit_service.rs:701-797 | a row no statement hit comes through unchanged |
| LostUpdates.ConflictIsReal | src-tauri/src/application/edit_service.rs:740-797 | a statement that finds no row conflicts with something that really happened to it |
| LostUpdates.HitTakesEffect | src-tauri/src/application/edit_service.rs:701-797 | a hit row is gone or has the new cells after its statement |
| LostUpdates.SavedTable | src-tauri/src/application/edit_service.rs:701-797 | version-locked changes that went through leave the table they were made against with its rows deleted or rewritten as they were seen and the inserts added, and nothing else |
| LostUpdates.VersionedHitsDisjoint | src-tauri/src/application/edit_service.rs:701-797 | two version-locked statements of one transaction never hit the same row |
| LostUpdates.KeyOnlyLockIff | src-tauri/src/application/edit_service.rs:163-211 | an accepted change matches its row whatever the row has become exactly when there is no version and only key columns were shown |
| LostUpdates.KeyOnlyLockIgnoresChanges | src-tauri/src/application/edit_service.rs:163-211 | such a plan matches its row whatever the row has become |
| LostUpdates.KeyOnlyLockIsAccepted | src-tauri/src/application/edit_service.rs:163-211 | and the planner accepts it: a concrete update |
| EnteredValues.AcceptsIff | src-tauri/src/application/edit_service.rs:119-343 | a change is planned exactly when it names its relation and whole key, each key column under its own name with a value that can be sent, has a version or comparable originals, and enters values that can be sent into columns that exist and are not generated |
| EnteredValues.SentIff | src-tauri/src/application/edit_service.rs:50-84 | by a server-side reader defined apart from the planner, every value that can be sent is read back as meant: the words true and false, the text, the decoded bytes, NULL; arrays and unusable binaries are refused |
| EnteredValues.SetsCarryEntered | src-tauri/src/application/edit_service.rs:213-343 | an accepted update or insert assigns every column a value was entered for, once, and no other, and each parameter brings the server exactly the value entered |
| EnteredValues.ConditionsCarryOriginals | src-tauri/src/application/edit_service.rs:140-211 | every key and lock condition, and the key lookup, brings the server exactly the identity's or the original's value |
| EnteredValues.HitHoldsEntered | src-tauri/src/application/edit_service.rs:701-797 | a row hit by a delete is gone; one hit by an update holds the entered value under every changed column and its old cell elsewhere |
| EnteredValues.SavedRowsHoldEntered | src-tauri/src/application/edit_service.rs:701-797 | in the committed table of version-locked changes every updated and inserted row holds what was entered, over its own old cells or the defaults, and every deleted row is gone |
| EnteredValues.OtherRowsStay | src-tauri/src/application/edit_service.rs:701-797 | and a row no change was about is as it was |
| EnteredValues.ConcernedRow | src-tauri/src/application/edit_service.rs:140-211 | the row a version-locked change is about has the version seen and holds the identity's value in every key column |
| Drafts.EditStore.SetCell | src/entities/result/editStore.ts:52-63 | one cell draft is set or cleared; an emptied row goes; the count is recomputed |
| Drafts.EditStore.ToggleDelete | src/entities/result/editStore.ts:64-72 | a delete mark is toggled and the count follows |
| Drafts.EditStore.ResolveRows | src/entities/result/editStore.ts:108-120 | resolved drafts are dropped and the rest moved to where their rows will be |
| GridDrafts.RemovalMovesRows | src/entities/result/resultStore.ts:66-71 | splicing distinct rows from the highest index down moves row i to i minus the removed rows below it |
| GridDrafts.RebasedKeepsOrder | src/entities/result/editStore.ts:108-120 | surviving rows never land on one index and keep their order |
| GridDrafts.ApplyServerValues | src/features/data-editing/saveChanges.ts:189-210 | conflicts outside the grid are skipped, the others rewrite or take out their rows, and grid and drafts are compacted once |
| GridDrafts.ResolutionKeepsDrafts | src/entities/result/editStore.ts:108-120 | a resolution loses, merges and reorders no surviving draft, and each stays on its database row |
| GridDrafts.RowFollowsRun | src/features/data-editing/saveChanges.ts:189-210 | over any run a surviving row is found, as the same database row, where it is followed to |
| GridDrafts.RunKeepsInv | src/entities/result/editStore.ts:52-127 | after every run drafts sit on grid rows, one per row and kind, none empty, and pendingCount is their number |
| DraftRuns.DraftsFollowRun | src/entities/result/editStore.ts:52-127 | over every run of edits, marks, pages, locks and resolutions, what is drafted where a row now stands is what was drafted on that row itself |
| DraftRuns.UntouchedDraftSurvives | src/entities/result/editStore.ts:108-120 | a draft whose row no action edits, marks or resolves is there after the run, on the database row it was made on |
| DraftRuns.RestStays | src/entities/result/editStore.ts:52-115 | edits and marks leave the rows, the inserts and the lock alone, an insert and a lock everything else, a page the drafts |
| DraftRuns.EveryRowHasOrigin | src/entities/result/resultStore.ts:66-71 | every row after an action was there before it, or came with a page and has no draft |
| DraftRuns.CountIsDrafts | src/entities/result/editStore.ts:120-127 | after every run the count shown is the changed cells, the rows marked for deletion and the rows to insert |
| DraftRuns.ResolvedShows | src/features/data-editing/saveChanges.ts:189-210 | a resolution shows on each row it names what the server has there now, or takes the row out; every other row shows what it did |
| Tsv.ParseTsv | src/features/data-editing/tsv.ts:10-85 | the scanning loop reads what the step-by-step parser defines, with every limit and quote error |
| Tsv.ToTsv | src/features/result-grid/exporters.ts:11-25 | the lines joined are the header, if wanted, and one line per row |
| Tsv.TsvRoundTrip | src/features/data-editing/tsv.ts:10-94 | a copied grid within the limits pastes back to the same cells, with NULL, empty text, the words NULL and DEFAULT, tabs, quotes and line breaks kept apart |
| Tsv.AcceptedPasteIsBounded | src/features/data-editing/tsv.ts:40-84 | any accepted paste is inside the row and cell limits and flags every field |
| TsvText.PasteIff | src/features/data-editing/tsv.ts:10-85 | any text whatever is fields, bare or quoted, each ended by a tab or one of three line breaks, or it has a bad quote; a paste is accepted exactly when it has none and is within 10485760 bytes, 10000 fields and 500 rows, and is then those rows with each field and whether it was quoted |
| TsvText.MarkersAreBare | src/features/data-editing/tsv.ts:87-94 | only the bare words NULL and DEFAULT stand for anything but their text |
| TsvText.CellWording | src/features/result-grid/exporters.ts:6-9 | a copied cell is quoted only where it must be |
| TsvText.HeaderReadsBack | src/features/result-grid/exporters.ts:11-25 | a grid copied with its header pastes as the names and then the cells |
| Csv.ToCsv | src/features/result-grid/exporters.ts:34-55 | the file is the header and rows, each ended by CR LF |
| Csv.CsvReadsBack | src/features/result-grid/exporters.ts:27-55 | a reader of section 2 of RFC 4180 finds exactly the names and cells, with an apostrophe before guarded text that starts with one of = + - @ and nothing else changed |
| Csv.CsvRoundTripIff | src/features/result-grid/exporters.ts:27-55 | the data reads back, NULL and empty text apart, exactly when the formula defence is off or has nothing to guard |
| Csv.DefenceLeavesNoFormula | src/features/result-grid/exporters.ts:27-31 | with the defence on only numbers and bytea can start like a formula |
| ArrayText.ArrayTree | src/entities/result/valueText.ts:7-22 | an array is nested exactly when its payload has the size its dimensions declare, at most six, none negative, none empty beside another, and holds no array |
| ArrayText.Nest | src/entities/result/valueText.ts:16-21 | the captured index runs through the payload once, in order |
| ArrayText.ArrayTreeIsLossless | src/entities/result/valueText.ts:7-22 | flattening gives the payload back, every depth has its declared length, each multi-index finds the value at the row-major offset |
| ArrayText.PrintsIff | src/entities/result/valueText.ts:7-38 | an array has text exactly when it can be nested and every element is NULL or has text; bounds stand before it exactly when it is not empty and some lower bound is not 1 |
| ArrayText.ArrayTextRoundTrip | src/entities/result/valueText.ts:24-38 | a non-empty array that prints reads back, by section 8.15.6 of the PostgreSQL manual, to the same bounds, nesting and elements |
| Numeric.IntegerPart | src-tauri/src/infrastructure/postgres/decoder.rs:172-185 | the integer digits are the groups up to the weight, the first unpadded |
| Numeric.FractionPart | src-tauri/src/infrastructure/postgres/decoder.rs:187-203 | the fraction is the groups after the point, zeros before the first stored one, cut at the declared scale |
| Numeric.DecodeNumericRaw | src-tauri/src/infrastructure/postgres/decoder.rs:149-210 | short and unknown payloads are refused, the special signs named, the rest printed from their digits |
| Numeric.PrintingIsExact | src-tauri/src/infrastructure/postgres/decoder.rs:169-210 | integer part and fraction are the absolute value times 10^dscale rounded down, with exactly dscale decimals, for any weight and scale |
| Numeric.NoLeadingZero | src-tauri/src/infrastructure/postgres/decoder.rs:172-185 | a number stored without leading zero digits is printed without them |
| NumericWire.PayloadReads | src-tauri/src/infrastructure/postgres/decoder.rs:149-168 | an encoder defined apart from the decoder puts count, weight, sign word, scale and digits, high byte first, where the decoder finds them |
| NumericWire.HeaderCounts | src-tauri/src/infrastructure/postgres/decoder.rs:149-165 | the count in the header is the number of digits that follow it |
| NumericWire.PayloadPrintsItsNumber | src-tauri/src/infrastructure/postgres/decoder.rs:149-210 | for every sign word, weight, scale and base-10000 digits the text of the encoded payload reads back, by a reader of its own, to the sign and the absolute value times 10^dscale rounded down, a point standing before exactly dscale decimals when there are any; the three special words are named and every other sign word is refused |
| Calendar.SteppingIsCounting | src-tauri/src/infrastructure/postgres/decoder.rs:255-260 | stepping n days from 2000-01-01 and counting leap years agree |
| Calendar.CycleShift | src-tauri/src/infrastructure/postgres/decoder.rs:257-261 | 400 years are 146097 days, from any date and in both directions |
| Calendar.DateOfCounts | src-tauri/src/infrastructure/postgres/decoder.rs:252-261 | mapping a day count into one cycle and restoring the year loses nothing |
| Temporal.DecodeTemporal | src-tauri/src/infrastructure/postgres/decoder.rs:234-290 | the text is built piece by piece as specified, sentinels first |
| TemporalWire.DecodeTemporalRaw | src-tauri/src/infrastructure/postgres/decoder.rs:225-290 | from the payload bytes on: lengths, two's complement and zones included |
| TemporalWire.RefusedIff | src-tauri/src/infrastructure/postgres/decoder.rs:225-290 | a payload is refused exactly for its length, a time outside 0 to 24:00 or a zone of a day or more |
| TemporalWire.TimetzRoundTrip | src-tauri/src/infrastructure/postgres/decoder.rs:228-233 | every time with a zone reads back from its text, microseconds and seconds west alike |
| TemporalWire.WireRoundTrip | src-tauri/src/infrastructure/postgres/decoder.rs:234-290 | every date and timestamp between the sentinels reads back from the text its bytes are shown as |
| Temporal.TimeRoundTrip | src-tauri/src/infrastructure/postgres/decoder.rs:212-222 | every time of day up to 24:00 reads back |
| Temporal.TemporalRoundTrip | src-tauri/src/infrastructure/postgres/decoder.rs:225-290 | every date and timestamp offset but the two sentinels reads back through year, month, day, clock and BC suffix |
| Temporal.TimeWording | src-tauri/src/infrastructure/postgres/decoder.rs:212-222 | a time of day has two digits of hours and no fraction, three decimals or six, as many as it needs |
| Temporal.DateWording | src-tauri/src/infrastructure/postgres/decoder.rs:252-290 | a year has four digits, or more without a zero in front; then month, day, time, Z and BC, each only where it belongs |
| Temporal.InfinityIff | src-tauri/src/infrastructure/postgres/decoder.rs:240-251 | the two sentinels and only they are shown by name |
| Interval.FmtInterval | src-tauri/src/infrastructure/postgres/decoder.rs:106-145 | the parts shown are the non-zero ones, or a zero time |
| Interval.TimeWording | src-tauri/src/infrastructure/postgres/decoder.rs:126-141 | a time has a minus exactly when it is negative and two digits of hours, or more without a zero in front |
| Interval.IntervalRoundTrip | src-tauri/src/infrastructure/postgres/decoder.rs:106-145 | every interval reads back to its months, days and microseconds |
| Interval.PartsShown | src-tauri/src/infrastructure/postgres/decoder.rs:106-125 | years and months are split with the sign of the months, and each part that is not zero is shown, in order |
| Interval.UnitWording | src-tauri/src/infrastructure/postgres/decoder.rs:111-125 | a unit is singular for 1 and -1 and takes an s for every other count |
| Interval.FractionWording | src-tauri/src/infrastructure/postgres/decoder.rs:126-141 | the fraction has up to six decimals, stands only when it is not zero, and never ends in a zero |
| Stripper.SkipToken | src/features/query-editor/statementSplitter.ts:85-138 | each kind of token is skipped to its end, or to the end of the text |
| Stripper.StripLiterals | src/features/query-editor/statementSplitter.ts:78-141 | the result is every token, blanked if it is a literal or comment |
| Stripper.StripKeepsLayout | src/features/query-editor/statementSplitter.ts:82-84 | length and line breaks stay, and every other character stays or becomes a space |
| Stripper.StripKeepsSemicolons | src/features/query-editor/statementSplitter.ts:78-141 | top-level semicolons are exactly where they were |
| Stripper.StripLeavesNothingHidden | src/features/query-editor/statementSplitter.ts:78-141 | no literal, dollar quote or comment is left to fool a keyword scan |
| Stripper.StripIdempotent | src/features/query-editor/statementSplitter.ts:78-141 | stripping twice is stripping once |
| Splitter.SplitStatements | src/features/query-editor/statementSplitter.ts:8-72 | the loop returns the trimmed pieces between top-level semicolons |
| Splitter.PiecesTile | src/features/query-editor/statementSplitter.ts:14-18 | the raw pieces and the semicolons cut out make up the text, in order |
| Splitter.StatementsAreTheNonBlankPieces | src/features/query-editor/statementSplitter.ts:14-18 | the statements are exactly the pieces that are not blank |
| Splitter.StatementsInOrder | src/features/query-editor/statementSplitter.ts:8-72 | statements come in text order without overlap |
| Splitter.StripKeepsPieces | src/features/query-editor/statementSplitter.ts:8-141 | text and stripped text are cut in the same places |
| SqlTokens.CutsAreTheFreeSemicolons | src/features/query-editor/statementSplitter.ts:8-72 | a text put together from tokens is cut at exactly the semicolons that are tokens: none inside single quotes (doubled ones included), double quotes, line comments, nested block comments or dollar quotes, closed or not, and every other one |
| SqlReader.EveryTextIsCutThere | src/features/query-editor/statementSplitter.ts:8-72 | and every text whatever is put together from such tokens |
| SqlReader.EveryTextIsBared | src/features/query-editor/statementSplitter.ts:78-141 | every text stripped is its tokens, strings and comments blanked but for their line breaks, and plain characters, semicolons and quoted identifiers as they were |
| SplitOnce.StatementsAreSingle | src/features/query-editor/statementSplitter.ts:8-72 | splitting a returned statement again gives that statement alone |
| CommandWords.SkipBlock | src-tauri/src/infrastructure/postgres/session_actor.rs:274-293 | searching for the next comment mark consumes what the character loop of the splitter does, nested and overlapping marks included |
| CommandWords.SkipComments | src-tauri/src/infrastructure/postgres/session_actor.rs:267-299 | whitespace and comments are skipped as the splitter skips them |
| CommandWords.CommandWordsOf | src-tauri/src/infrastructure/postgres/session_actor.rs:309-322 | the words are the first five, stopping at anything else |
| CommandWords.WordsOfRendered | src-tauri/src/infrastructure/postgres/session_actor.rs:309-322 | whatever whitespace and nested comments stand around the words, the words found are those words |
| CommandWords.GapsDoNotMatter | src-tauri/src/infrastructure/postgres/session_actor.rs:301-322 | two spellings that differ in gaps and letter case have the same command words |
| Transactions.FollowsIff | src-tauri/src/infrastructure/postgres/session_actor.rs:324-362 | after a statement, however it ends, the tracked state is the model server's exactly outside three drifting cases |
| Transactions.RequestFollowsIff | src-tauri/src/infrastructure/postgres/session_actor.rs:145-246 | the same for any request of a session: a table page drifts exactly when it fails inside an open block or takes the connection and its block with it |
| Transactions.SessionFollows | src-tauri/src/infrastructure/postgres/session_actor.rs:127-258 | over any session of statements and pages without such a step, errors while preparing, early cancellations and lost connections included, the tracked state is the server's after every request |
| Transactions.FailedPrepareDrifts | src-tauri/src/infrastructure/postgres/session_actor.rs:355-362 | a failed PREPARE TRANSACTION: the server is idle, the tracker keeps a failed transaction |
| Transactions.StatementNamedTransactionDrifts | src-tauri/src/infrastructure/postgres/session_actor.rs:335-338 | a prepared statement called transaction is taken for PREPARE TRANSACTION |
| Transactions.InterruptedCommitDrifts | src-tauri/src/infrastructure/postgres/session_actor.rs:658-672 | a COMMIT cancelled in the row stream before it takes effect leaves the block failed and the tracker goes idle; cancelled while it is prepared, both have the block failed |
| Transactions.PageInBlockDrifts | src-tauri/src/infrastructure/postgres/session_actor.rs:210-246 | a page that fails or times out inside a block: the server is failed or idle, the tracker keeps the block, and a statement after it does not mend it |
| Transactions.SpellingSays | src-tauri/src/infrastructure/postgres/session_actor.rs:301-322 | any spelling of a control command, with any comments, is recognised as that command |
| Fuzzy.FuzzyMatch | src/features/query-editor/fuzzyMatch.ts:13-25 | the loop returns the greedy match with its start, span and merged ranges, or null |
| Fuzzy.NoMatchIff | src/features/query-editor/fuzzyMatch.ts:13-25 | null exactly when the pattern is no subsequence of the label |
| Fuzzy.MatchIsOptimal | src/features/query-editor/fuzzyMatch.ts:10-12 | no match starts earlier, none from that start is tighter, none ends sooner |
| Fuzzy.MatchCoversItsLetters | src/features/query-editor/fuzzyMatch.ts:20-24 | the ranges are disjoint, increasing, never adjacent, and cover exactly the matched letters |
| Workspace.StepKeepsInv | src/entities/workspace/workspaceStore.ts:90-228 | every action keeps the partition of tabs into groups and every active choice valid |
| Workspace.RunKeepsWorkspace | src/entities/workspace/workspaceStore.ts:80-227 | after any run from the empty workspace the groups partition the tabs, none is empty, every active tab and result is consistent |
| WorkspaceEffects.TabAddedDoes | src/entities/workspace/workspaceStore.ts:92-119 | a new tab comes last, empty and active, at the end of the group named or else the active one, or in a group of its own right after it |
| WorkspaceEffects.TabClosedDoes | src/entities/workspace/workspaceStore.ts:122-137 | closing takes exactly the tab named out of the tabs and its group; every other tab, its results and the order stay; the active tab stays unless it was the one, and then the next of its group is active, the last when there is none, or, the group gone, the active tab of the group in its place |
| WorkspaceEffects.ClosingNoTab | src/entities/workspace/workspaceStore.ts:124-125 | closing a tab that is not open does nothing |
| WorkspaceEffects.TabActivatedDoes | src/entities/workspace/workspaceStore.ts:84-88 | activating an open tab makes it active in the workspace and in the group that has it and changes no tab; any other does nothing |
| WorkspaceEffects.TabActivatedByIndexDoes | src/entities/workspace/workspaceStore.ts:142-146 | an index counts in the group of the active tab, and one outside it does nothing |
| WorkspaceEffects.TabCycledDoes | src/entities/workspace/workspaceStore.ts:147-153 | cycling activates the next or previous tab of the group, else the first or last of the neighbouring group, wrapping at the ends |
| WorkspaceEffects.PanelCycledDoes | src/entities/workspace/workspaceStore.ts:161-168 | panel cycling activates the active tab of the next or previous group, wrapping at the ends |
| WorkspaceEffects.ResultAddedDoes | src/entities/workspace/workspaceStore.ts:169-184 | a new result comes last in its own tab and is active there; nothing else changes |
| WorkspaceEffects.ResultClosedDoes | src/entities/workspace/workspaceStore.ts:185-194 | one result leaves its own tab in place; if it was active the next is, or the last, or none |
| WorkspaceEffects.ResultActivatedDoes | src/entities/workspace/workspaceStore.ts:195-199 | activating a result changes only which one of its tab is active |
| WorkspaceEffects.ResultCycledDoes | src/entities/workspace/workspaceStore.ts:154-160 | the active tab moves to its next or previous result, wrapping, and nothing else changes |
| WorkspaceEffects.NothingOpen | src/entities/workspace/workspaceStore.ts:90-200 | with no tab open only adding one does anything |
| Workspace.CyclingVisitsAll | src/entities/workspace/workspaceStore.ts:147-153 | cycling forward once per tab visits each tab once and returns |
| Workspace.BackUndoesForward | src/entities/workspace/workspaceStore.ts:147-153 | cycling backward undoes cycling forward on the active tab |
| Workspace.EmptyIsFine | src/entities/workspace/workspaceStore.ts:64-69 | the empty workspace satisfies the invariant the runs start from |

## Left out

- Transactions.Server: the server is a model of the PostgreSQL manual's pages on BEGIN, COMMIT, ROLLBACK, SAVEPOINT and PREPARE TRANSACTION, one statement at a time; scripts of several statements and procedures that commit are not part of it.
- PagedResult.RestCanBeLoaded: speaks of at most 4294967295 retained rows, because past that the reply's 32-bit offset wraps and the client refuses the page (RowOrderErrorIff gives the exact condition); rows with a column never reach it (RowsWithColumnsFitOffsets).
- PagedResult.ServesRetainedIff: the streamed chunks and the terminal event are taken as received in order.
- TablePagingRuns.EveryRunIsGapFree: speaks of runs in which the table changes only by commits among the rows shown; rows inserted past them, sort-key updates, other writers and a commit that overlaps an in-flight page are outside it.
- EditCommit.Preview: the size of a plan is a parameter, since SQL text is not modelled.
- EditCommit.Commit: the transaction is serial on one table; a failing re-read after a conflict, triggers, DDL checks before the commit and isolation against other sessions are not modelled.
- EditPlanner.WhereClause: SQL text, identifier quoting and casts are terms and numbered slots instead of strings.
- Execution.Execute: an execution accepted but still queued when its session closes is outside the terminal-event claim; wall-clock timeouts are a step that may happen at any point.
- Tsv.TsvRoundTrip: text is a sequence of characters, not of UTF-16 units, so lone surrogates are not modelled; cells are given by their exported text.
- Fuzzy.FuzzyMatch: pattern and label arrive lower-cased; case folding that changes a text's length is not modelled.
- Numeric.DecodeNumericRaw: a negative digit count, which no server sends, is refused; the source's address arithmetic on it is not modelled.
- Workspace.RunKeepsWorkspace: starts from the empty workspace; titles, kinds, session ids, running flags and pins are carried by the source without touching what is proved and are not fields here, and workspaces restored from disk are not covered.
- GridDrafts.ApplyServerValues: the conflict rows are rewritten by identity; turning server values into grid values is not modelled.
- Drafts.EditStore: the cells of rows to insert, removing such a row and clearing a tab are single-field updates and not modelled.
- ResultStore.Store.OnMessage: listeners, formatting and the column, command and notice events that only replace a field are not modelled.
- Ledger: a store made without a usage table, large binary values and their reads, and the iteration order of the stores are not modelled.
- fuzzyResult: sorting the options by a fixed comparator is the platform's stable sort; leaving it out drops only an easy member.
- statementAt and the two firstKeyword helpers of the window are short lookups over what is proved here.
- TemporalWire.ZoneText: zone offsets are printed by the date library's own rule, sign, hours and minutes, and seconds when there are any; the library's calendar step is specified day by day.
- JSON export, float formatting, ranges and bit strings are printed by foreign code.
- Tauri commands, child processes, the keychain, snapshot files, connection setup and catalog queries are input and output.
- React components, selection, shortcuts, settings and completion sources are user interface.
