# Unity Catalog extension for DuckDB: verified models

This project models the parts of the Unity Catalog extension that carry state, branching or
arithmetic, and proves what they are relied on for. `dafny verify dfyconfig.toml` checks all of it.

**Commit, attach and backfill** (`CommitProtocol`, `CommitSafety`, `CommitEtags`,
`CommitTransactions`, `CommitFindings`, `CatalogTable`). Any number of sessions share one catalog
server and one `_delta_log` directory. A step is one remote call, one file operation or one critical
section, and steps of different sessions and of different commit calls of one session interleave
freely. What is assumed of others is this:

- the server answers and accepts as the predicates `Answers` (LoadTable lists every ratified version
  above its backfilled mark, and nothing it has not ratified) and `Accepts` (UpdateTable takes only
  latest + 1, on a matching etag if one was sent) say;
- other clients commit through that server only (`OtherCommit`), put only whole ratified files into the
  log, each under its own version (`OtherPublish`), and report the mark only as far as every version up
  to it is in the log (`OtherMark`).

Over every run: watermarks and the server's mark cover only versions that exist in the log, entries
are the ratified files, watermarks never fall, and acknowledged commits stay. An entry is a whole
copy exactly if no session is writing it and no copy of that version was cut short; what a reader
gets from a version of its snapshot is the ratified file exactly if the version is in the snapshot's
tail or its entry is whole, and otherwise part of it. An attach sees an own commit exactly if the
one reply it used tells it. A cached etag is the server's own exactly as long as nothing was
ratified since it was told, and a commit call that sends the server's etag may be taken exactly if
it asks for the next version and nothing was ratified while it was on its way. All attaches of one
transaction return one snapshot, and the next transaction still finds the table dirty.
`CatalogTable` is the object that does the work, field by field and loop by loop. Its attach under
any faults, its commit whether accepted, refused or accepted with the answer lost, and its detach
are each proved to be a run of the protocol, so that reachable states stay reachable.
`CommitFindings` holds runs for what is not guaranteed: the watermark can cover a partial entry, an
attach can read one, a late etag write can undo a newer etag, and a reply without a latest version
can hide the session's own commit.

**CREATE TABLE under faults** (`TableCreation`, `Locations`). Every remote call may fail before or
after it takes effect, with any kind of error, while other clients change the catalog in between. A
request takes effect before its call returns, or never.

**Scan-plan read path** (`IrcFilter`, `IrcText`, `Json`, `Decimals`, `FileList`, `PositionDeletes`,
`PlannedScan`). A predicate is weakened and printed as an Iceberg REST filter, files arrive lazily in
exchange for tokens, and deleted positions are filtered chunk by chunk. The end-to-end result is that
a scan planned with the sent filter, unless an exchange throws, returns exactly the rows of the
unfiltered, fully expanded plan. Columns may hold NaN and infinities, in DuckDB's order.

**Deletion vectors and Puffin files** (`Words`, `Crc32`, `BitSets`, `Roaring`,
`RoaringBytes`, `DeletionVector`, `Puffin`). A cursor parser over untrusted bytes with a wrapping 32-bit count, a table-driven checksum
compared with the bit-at-a-time CRC-32 of section 8 of RFC 1952, and a concrete codec for the portable
serialization of roaring bitmaps: arrays, bit sets and runs, with and without the run cookie.

**Type spellings** (`DeltaTypes`, `Documents`, `Texts`, `TypeJson`, `TypeText`, `TypeAgreement`,
`WireSchema`). The catalog spells a column's type as Spark text and as Delta JSON; the two parsers
agree on all legal types of a field name exactly if the name does not look like type syntax.
`WireSchema` is the rewriting of schema keys for the catalog's API.

**Waiting for a plan** (`PollLoop`). Exact bounds on sleeps, fetches and the whole wait, and on which
plans are cancelled.

Where the code and its own words differ, the code is followed. "Already exists" in a backfill is
taken by the code for a copied version (src/storage/uc_table_set.cpp:339-342), although the target is
created before it is written: existence is what is proved, and `CommitFindings.WatermarksCanCoverAPartialEntry`
shows the difference. The comment at src/storage/uc_table_set.cpp:812-814 promises the removal of the version 0 that
a failed external create wrote, but a write that fails once the file is there is not covered by it
(`TableCreation.FailedWriteBlocksTheLocation`).

## Model

| member | source | states |
|---|---|---|
| CommitProtocol.SortByVersionSorts | src/storage/uc_table_set.cpp:321-327 | the commits to copy come in ascending order of version, none dropped, repeated or invented |
| CommitProtocol.RatifiedOfReply | src/uc_api.cpp:536-563 | the ratified version computed from a LoadTable reply is never above the latest one, and equals it exactly when the reply reports it, lists it, or only version 0 exists |
| CommitProtocol.AdvanceLeavesNoGap | src/storage/uc_table_set.cpp:328-342 | the version found or copied next leaves no version below it missing from the log, in whatever order or number the reply listed them |
| CommitProtocol.SkipLosesNothing | src/storage/uc_table_set.cpp:330-332 | a commit skipped for the watermark is in the log already |
| CommitProtocol.SessionStep | src/storage/uc_table_set.cpp:411-476 | whatever a session does next keeps the promises of the server, of the log and of the session |
| CommitProtocol.StepKeepsInv | src/storage/uc_table_set.cpp:317-476 | every step of every session and of other clients keeps the invariant, and commits and log only grow |
| CommitSafety.WatermarksAreBackfilled | src/storage/uc_table_set.cpp:453-464 | in every reachable state each version at or below a session's watermark, a watermark in flight, or the server's mark exists in the log, and each log entry is the file ratified as that version |
| CommitSafety.WatermarksNeverFall | src/storage/uc_table_set.cpp:453-464 | however a run goes on, no session's watermark falls below what it was |
| CommitSafety.AttachesReadTheRatifiedHistory | src/storage/uc_table_set.cpp:438-475 | of each version up to the ratified one of any attach ever made, the ratified file is read exactly if the tail lists it or its entry is whole, and part of it otherwise; of later versions nothing |
| CommitSafety.AttachesReadWhole | src/storage/uc_table_set.cpp:294-313 | a version reads as the ratified file exactly if the tail lists it, or no session is writing its entry and no copy of it was cut short in the whole run |
| CommitSafety.UsedReplyDecides | src/storage/uc_table_set.cpp:438-475 | the snapshot of an attach is that of the last reply its session had, and unless its transaction was already reading the table, every own commit acknowledged before it began was ratified when that reply was given |
| CommitSafety.ReadYourWrites | src/functions/uc_delta_ccv2_commit.cpp:56-62 | every attach used some reply; one by a transaction not already reading the table covers a version whose commit call had marked the table dirty before it began exactly if the reply it used reports the latest version, lists this or a later one, or it is version 0; and what it covers it reads as the very file committed, under the exact condition above |
| CommitSafety.OwnCommitsMustBeSeen | src/functions/uc_delta_ccv2_commit.cpp:56-62 | what the marks made by a session's commit calls before an attach returns acknowledge, file and version, is among what that attach must see |
| CommitSafety.AcknowledgedCommitsStay | src/functions/uc_delta_ccv2_commit.cpp:47-62 | a commit once acknowledged is the ratified file of its version from then on |
| CommitSafety.OneWriterPerEntry | src/storage/uc_table_set.cpp:297-308 | exclusive creation gives each entry being written one writer, which is at that entry |
| CommitSafety.EntriesAreWhole | src/storage/uc_table_set.cpp:294-313 | an entry is a complete copy of the ratified file exactly when no session is writing it and no copy of that very version was cut short |
| CommitSafety.WatermarksAreWhole | src/storage/uc_table_set.cpp:339-342 | everything under the server's mark, or under a session's watermark, is a complete copy exactly when nothing there is being written and no copy of anything there was cut short |
| CommitEtags.StoredEtagIsCurrent | src/functions/uc_delta_ccv2_commit.cpp:60-62 | with a server that never repeats an etag, the late write of a told etag leaves the server's own etag in the cache exactly if the call's version is still the latest |
| CommitEtags.PublishedEtagIsCurrent | src/storage/uc_table_set.cpp:453-464 | with such a server, the critical section of an attach leaves the server's own etag in the cache exactly if nothing was ratified since the reply |
| CommitEtags.GuardedCommitIsAlone | src/functions/uc_delta_ccv2_commit.cpp:47-55 | with such a server, a commit call that starts while its session has the server's etag may be taken, whatever happens in between, exactly if it asks for the next version and nothing was ratified since it started |
| CommitTransactions.ReadingKeepsSnapshot | src/storage/uc_table_set.cpp:411-424 | one more attach by a transaction that already reads the table changes nothing, not even a dirty mark, and returns what is attached |
| CommitTransactions.DirtyIsReloaded | src/storage/uc_table_set.cpp:419-422 | an attach by another transaction on a dirty table lets go of the snapshot and loads a new one |
| CommitTransactions.AttachedIsLastReturned | src/storage/uc_table_set.cpp:411-476 | in every reachable state what a session has attached is what its last attach returned |
| CommitTransactions.TransactionReadsOneSnapshot | src/storage/uc_table_set.cpp:411-424 | while one transaction reads a table, whatever other calls, sessions and clients do, all its attaches return one snapshot, and a dirty mark that was there or is made stays for the next transaction |
| CommitFindings.WatermarksCanCoverAPartialEntry | src/storage/uc_table_set.cpp:339-342 | a copy cut short is taken for a finished one by the next session, and the server's mark comes to cover it |
| CommitFindings.AttachCanReadAPartialEntry | src/storage/uc_table_set.cpp:339-342 | an attach outside any reading transaction can take in a version at or below its ratified one of which only part can be read |
| CommitFindings.CachedEtagCanBeStale | src/functions/uc_delta_ccv2_commit.cpp:56-62 | the newest version and its etag had been loaded and attached, yet the cache holds an older etag, with nothing in flight, nothing dirty and no commit that the server would accept |
| CommitFindings.UntoldReplyHidesOwnCommit | src/uc_api.cpp:536-563 | a reply that neither reports nor lists the latest version hides a commit already acknowledged |
| CatalogTable.CopyStagedCommit | src/storage/uc_table_set.cpp:294-313 | copied, already there or failed, and what each leaves in the log |
| CatalogTable.BackfillCommits | src/storage/uc_table_set.cpp:317-353 | the loop with its skip and early break computes the log and the watermark of the copy loop's specification |
| CatalogTable.BackfillIsARun | src/storage/uc_table_set.cpp:317-353 | the copy loop, whatever its faults, is a run of the protocol |
| CatalogTable.BackfillIsSafe | src/storage/uc_table_set.cpp:317-353 | unless the list itself leaves a gap, copying keeps every entry, adds only ratified files, never lowers the watermark and never raises it past a missing version |
| CatalogTable.BackfillFinishes | src/storage/uc_table_set.cpp:328-342 | with no fault every listed version ends up in the log and under the watermark |
| CatalogTable.BackfillExactly | src/storage/uc_table_set.cpp:317-353 | whatever is in the log and whatever goes wrong, copying goes exactly as far as the first commit that cannot be opened or written: those before it are in the log, whole unless they were there, the watermark is at the last of them, what failed leaves at most a cut-off entry, and nothing after it is touched; commits under the watermark are not looked at |
| CatalogTable.AttachTakesTheReplyIn | src/storage/uc_table_set.cpp:438-475 | an attach without a fault ends with the reply's etag, ratified version and tail, and for a writer with every listed version in the log and under the watermark; a read-only one leaves both alone |
| CatalogTable.RatifiedVersion | src/uc_api.cpp:539-563 | the ratified version bounds every listed commit and the reported version, and is one of them or 0 |
| CatalogTable.TableInformation.InternalDetach | src/storage/uc_table_set.cpp:280-291 | gives up what is attached and nothing else |
| CatalogTable.TableInformation.MarkDirty | src/storage/uc_table_set.cpp:355-357 | marks the table dirty and changes nothing else |
| CatalogTable.TableInformation.InternalAttach | src/storage/uc_table_set.cpp:411-476 | a transaction that already reads the table, or a table that is not dirty, keeps everything as it is; otherwise nothing old stays attached, a load that fails leaves etag, watermark and log alone, one that works brings the reply's etag, tail and version, and a read-only session writes nothing |
| CatalogTable.TableInformation.CommitExecute | src/functions/uc_delta_ccv2_commit.cpp:47-62 | the request pairs the etag and the watermark of one read; a call that throws leaves no trace; one that returns marks dirty and caches the new etag |
| CatalogTable.AttachIsARun | src/storage/uc_table_set.cpp:411-476 | an attach on its own is a run of the protocol with the same session, log and record |
| CatalogTable.CommitIsARun | src/functions/uc_delta_ccv2_commit.cpp:47-62 | a commit call that is accepted and returns is a run of the protocol that ratifies exactly one more version, the file it was given |
| CatalogTable.RefusedCommitIsARun | src/functions/uc_delta_ccv2_commit.cpp:47-55 | a commit call that the server refuses is a run that changes nothing at all |
| CatalogTable.LostCommitIsARun | src/functions/uc_delta_ccv2_commit.cpp:47-55 | a commit call that is accepted but whose answer is lost is a run that ratifies the file and leaves the session as it was |
| CatalogTable.CommitStaysReachable | src/functions/uc_delta_ccv2_commit.cpp:47-62 | whatever its fate, a commit call takes reachable states to reachable states |
| CatalogTable.DetachIsARun | src/storage/uc_table_set.cpp:280-291 | giving up what is attached is a run of one step |
| CatalogTable.DetachStaysReachable | src/storage/uc_table_set.cpp:280-291 | and takes reachable states to reachable states |
| CatalogTable.AttachStaysReachable | src/storage/uc_table_set.cpp:411-476 | an attach takes reachable states to reachable states, so all of the above holds after it |
| Locations.ComparableLocation | src/storage/uc_table_set.cpp:782-792 | the loops compute the comparable form |
| Locations.ComparableIsIdempotent | src/storage/uc_table_set.cpp:782-792 | the comparable form is a normal form, and exactly the normal paths are left alone |
| Locations.SpellingsAgree | src/storage/uc_table_set.cpp:781-792 | every file: spelling of an absolute path, the root included, with any slashes, compares as the path |
| Locations.OnlySlashesDropped | src/storage/uc_table_set.cpp:782-792 | a location that is no file: URI is compared as it is, but for slashes at its end |
| TableCreation.Registration | src/storage/uc_table_set.cpp:752-779 | a registration passes for done exactly when the call took effect and returned, or its outcome was unclear and the loaded table is ours; and then the catalog lists our table |
| TableCreation.CleanUp | src/storage/uc_table_set.cpp:812-839 | the log is removed exactly when the catalog denies the name or lists it elsewhere and the removal takes effect; no other log is touched |
| TableCreation.CleanUpKeepsListed | src/storage/uc_table_set.cpp:812-824 | a clean-up never removes the log of a table that the catalog lists there whenever it is asked |
| TableCreation.CleanUpCanRace | src/storage/uc_table_set.cpp:818-830 | a registration between the check and the removal loses its log |
| TableCreation.ExternalCreate | src/storage/uc_table_set.cpp:852-890 | reported success means listed at the location with version 0 in place; a log that was there before stays and keeps the create from succeeding; a taken name changes nothing |
| TableCreation.ManagedCreate | src/storage/uc_table_set.cpp:892-955 | reported success means listed under the staged id with version 0 in place |
| TableCreation.ExternalOutcome | src/storage/uc_table_set.cpp:852-890 | the no-op is reported exactly under IF NOT EXISTS if the check found the name taken or the registration was refused as taken; success exactly if the name was free, version 0 was written, and the registration returned or was unclear and the catalog then lists the table at the location; anything else fails with the error of the call that failed |
| TableCreation.ManagedOutcome | src/storage/uc_table_set.cpp:892-955 | the same for a managed create, where the staging call checks the name and the catalog is asked for the staged id |
| TableCreation.FailedCreateLeaves | src/storage/uc_table_set.cpp:852-890 | after a create that failed but could clean up, version 0 is there exactly if it was before, the catalog lists the table there, or the write failed late; and a log that is nobody's is left exactly if the name was found free, there was none before and the write failed late |
| TableCreation.FailedWriteBlocksTheLocation | src/storage/uc_table_set.cpp:871 | a write that fails once version 0 is there leaves it behind, and no external create there succeeds any more |
| TableCreation.MergeProperties | src/storage/uc_table_set.cpp:905-927 | a named feature is supported, else what the catalog requires holds, else what it suggests and kernel takes, else the statement's own |
| TableCreation.SettledExactly | src/storage/uc_table_set.cpp:905-927 | which of the wishes and options for a property holds, the last of several for one key |
| TableCreation.UCTableSet.RegisterTable | src/storage/uc_table_set.cpp:752-779 | the calls as they are made have the outcome and effect specified |
| TableCreation.UCTableSet.RemoveUnregisteredVersionZero | src/storage/uc_table_set.cpp:815-839 | the calls as they are made have the effect specified |
| TableCreation.UCTableSet.CreateExternal | src/storage/uc_table_set.cpp:852-890 | the statement as it runs has the outcome and effect specified, and asks for a reload only when it created a table |
| TableCreation.UCTableSet.CreateManaged | src/storage/uc_table_set.cpp:892-955 | as above, with the catalog's properties merged in |
| TableCreation.UCTableSet.CreateTable | src/storage/uc_table_set.cpp:794-956 | a read-only catalog, a NULL location and a relative one are refused with no effect; a location makes the table external |
| TableCreation.AbsoluteExactly | src/storage/uc_table_set.cpp:794-810 | a location is taken exactly if it starts with a slash or names a scheme |
| IrcFilter.FlipCompares | src/uc_irc_expression.cpp:99-115 | a comparison with its sides swapped and its operator flipped has the same truth value |
| IrcFilter.ComparisonWeakens | src/uc_irc_expression.cpp:87-149 | an emitted comparison has the predicate's truth value, unless the constant is a NULL string |
| IrcFilter.FoldEval | src/uc_irc_expression.cpp:168-178 | the left-nested binary fold has the truth value of the whole conjunction or disjunction |
| IrcFilter.ConstantsSent | src/uc_irc_expression.cpp:35-70 | by constructor, which constants are sent, dropped, or throw |
| IrcFilter.ComparisonsSent | src/uc_irc_expression.cpp:87-149 | a comparison is sent, dropped or throws exactly according to its operator, its column's name and its constant, on whichever side the column is |
| IrcFilter.OperatorsPartition | src/uc_irc_expression.cpp:99-140 | of values of one kind three operators are true exactly where the other three are not, and greater is less with the sides swapped |
| IrcFilter.JoinedIsSent | src/uc_irc_expression.cpp:152-179 | a conjunction is sent exactly if one of its parts is and none throws, and is true exactly where all parts sent are; a disjunction exactly if all of its parts are, and is true exactly where one is |
| IrcFilter.WeakenSound | src/uc_irc_expression.cpp:85-203 | on every row where a predicate is true the filter emitted for it is true |
| IrcFilter.SupportedExact | src/uc_irc_expression.cpp:85-203 | a predicate whose leaves are NULL tests and comparisons of a column with a non-NULL integer, finite floating-point number, boolean or string is emitted and equivalent |
| IrcFilter.FiltersSound | src/uc_irc_expression.cpp:205-227 | on every row where all pushed filters are true the filter sent is true |
| IrcFilter.FiltersExact | src/uc_irc_expression.cpp:205-227 | if all pushed filters are supported the filter sent has the truth value of their conjunction |
| IrcFilter.NullStringsAreNotExact | src/uc_irc_expression.cpp:65-66 | an emitted comparison of any operator is exact on every row if and only if its constant is not a NULL string |
| IrcFilter.SafeByBounds | src/uc_irc_expression.cpp:114-149 | a filter that asks of numbers only eq, lt or lt-eq is true for a server whose bounds leave NaN out on exactly the rows it is true on |
| IrcFilter.SoundByBoundsExactly | src/uc_irc_expression.cpp:114-149 | among comparisons, with such a server, these are exactly the ones whose filter loses no row |
| IrcText.JsonQuote | src/uc_irc_expression.cpp:14-33 | the loop writes the quoted and escaped text |
| IrcText.ValueToJson | src/uc_irc_expression.cpp:35-70 | which constants are written and how, which are dropped, and which throw, by constructor |
| IrcText.TermsSpelledOut | src/uc_irc_expression.cpp:114-200 | the documents sent for one term and for one NULL test |
| IrcText.OperatorWords | src/uc_irc_expression.cpp:114-140 | the words of the six operators |
| IrcText.NestingSpelledOut | src/uc_irc_expression.cpp:168-178 | three filters are nested to the left, in their order |
| Decimals.ThreeDigits | src/uc_irc_expression.cpp:37-46 | a number is written with its most significant digit first |
| IrcText.ComparisonToJson | src/uc_irc_expression.cpp:114-149 | the text of the weakened comparison |
| IrcText.PartsToJson | src/uc_irc_expression.cpp:156-179 | the loop over the children writes the text of the weakened conjunction or disjunction |
| IrcText.ExprToJson | src/uc_irc_expression.cpp:85-203 | the text written is that of the weakened predicate, and empty exactly when it is dropped |
| IrcText.SerializeFilters | src/uc_irc_expression.cpp:205-227 | the text written is that of all weakened filters |
| IrcText.BindData.PushdownFilter | src/storage/uc_table_entry.cpp:121-141 | a call without filters changes nothing, and one that throws leaves no filter |
| IrcText.TextIsDocument | src/uc_irc_expression.cpp:114-226 | the pieced-together text is a printed JSON document |
| IrcText.TextReadsBack | src/uc_irc_expression.cpp:13-226 | a reference parser recovers exactly the filter from its text at any depth; a strict one does exactly when no text holds a control character that section 7 of RFC 8259 wants escaped |
| IrcText.TextInjective | src/uc_irc_expression.cpp:13-226 | different filters have different texts |
| Json.QuoteReadsBack | src/uc_irc_expression.cpp:14-33 | a quoted text reads back whatever it contains and whatever follows |
| Json.EscapesRead | src/uc_irc_expression.cpp:14-33 | what each of the escapes stands for |
| Json.PrintReadsBack | src/uc_irc_expression.cpp:114-226 | a printed document reads back, nested in any context |
| FileList.LazyFileList.AddTask | src/uc_multi_file_list.cpp:27-41 | the new file has the delete files its task refers to, each from its own response and in their order; files and delete lists stay in lockstep, and a reference out of range is rejected |
| FileList.LazyFileList.AddTasks | src/uc_multi_file_list.cpp:87-89 | all tasks of one response are taken in against the delete files of that response |
| FileList.LazyFileList.Load | src/uc_multi_file_list.cpp:53-68 | the list starts with the plan's files and tokens and knows at once when there are none left |
| FileList.LazyFileList.ExpandNextPath | src/uc_multi_file_list.cpp:70-93 | true exactly when a file was added, false only when no token remains, and the files still to come are those of the eager expansion; when an exchange throws, the list is short of exactly the files below that token |
| FileList.LazyFileList.FileAt | src/uc_multi_file_list.cpp:70-93 | any sequence of requests sees the eager first-in-first-out expansion; one that throws leaves a usable list that misses exactly the files below the token it gave up |
| FileList.DroppingLoses | src/uc_multi_file_list.cpp:74-79 | taking a token out without exchanging it loses the files of all responses below it, and no other |
| FileList.EagerIsEverything | src/uc_multi_file_list.cpp:70-93 | the expansion meets each file of each response below the tokens exactly once |
| FileList.FirstInFirstOut | src/uc_multi_file_list.cpp:70-93 | the files of the tokens in the queue come in its order, before those of any token that their responses bring |
| FileList.PlanEntriesComeFrom | src/uc_multi_file_list.cpp:27-41 | every entry of a plan is a task's file with the delete files, of that task's own response, that it refers to |
| PositionDeletes.ScanVector | src/uc_multi_file_list.cpp:185-218 | the positions of a deletion vector are added |
| PositionDeletes.ScanPositions | src/uc_multi_file_list.cpp:158-182 | the positions a delete file lists for this path are added, and only those |
| PositionDeletes.BuildDeleteFilter | src/uc_multi_file_list.cpp:220-250 | a filter of the union of positions, none when nothing is deleted, and a failure for any equality delete |
| PositionDeletes.DeletedIsUnion | src/uc_multi_file_list.cpp:220-250 | a position is deleted exactly if some referenced delete file deletes it |
| PositionDeletes.PositionDeleteFilter.Filter | src/include/uc_position_delete_filter.hpp:19-31 | the selection vector holds the surviving rows of the chunk |
| PositionDeletes.RowsExact | src/include/uc_position_delete_filter.hpp:19-31 | the surviving rows are the rows not deleted, strictly increasing |
| PositionDeletes.SelectionIsRows | src/include/uc_position_delete_filter.hpp:25-29 | a chunk's selection, shifted by its start, is the surviving rows of its range |
| PositionDeletes.ChunksCompose | src/include/uc_position_delete_filter.hpp:19-31 | over any split into chunks the selections together are the surviving rows of the file |
| PositionDeletes.SurvivingRows | src/uc_multi_file_list.cpp:220-250 | they are exactly the rows that no referenced delete file deletes |
| PositionDeletes.FileDeletes | src/uc_multi_file_list.cpp:158-182 | a position-delete file deletes exactly the positions its rows give for this data file, and fails exactly on a wrong format, an unreadable file or too few columns |
| PositionDeletes.VectorDeletes | src/uc_multi_file_list.cpp:185-218 | a deletion vector deletes exactly the positions its blob decodes to, and fails exactly if the blob is refused or one of them leaves the signed 64-bit range |
| PositionDeletes.VectorMissing | src/uc_multi_file_list.cpp:185-218 | a deletion vector without a size, or whose bytes are not all there, fails |
| PositionDeletes.EqualityFails | src/uc_multi_file_list.cpp:225-232 | an equality delete, and nothing else, fails the build as one |
| PositionDeletes.EntryRowSurvives | src/uc_multi_file_list.cpp:220-250 | a row of a planned file survives exactly if none of the delete files of its own response that its task refers to deletes it |
| PlannedScan.PruningKeepsRows | src/storage/uc_table_entry.cpp:139-141 | leaving out files in which the sent filter is true of no row changes no row of the result |
| PlannedScan.FilteredPlanIsComplete | src/storage/uc_table_entry.cpp:139-141 | a plan made with the sent filter gives the rows of the unfiltered plan |
| PlannedScan.RequestedIsSent | src/storage/uc_table_entry.cpp:139-141 | what the text sent asks of the server is the filter of the pushed predicates |
| PlannedScan.AnyRuledOutMayGo | src/storage/uc_table_entry.cpp:139-141 | the server may leave out any choice of the files in which that filter is true of no surviving row |
| PlannedScan.ReadFile | src/uc_multi_file_list.cpp:252-269 | a file read chunk by chunk yields its surviving rows |
| PlannedScan.KeepExactly | src/storage/uc_table_entry.cpp:121-141 | applied again, the pushed filters keep, in order, exactly the rows on which every one is true |
| PlannedScan.FileRowsExactly | src/storage/uc_table_entry.cpp:145-253 | of one file a scan gives, in order, exactly the rows that survive its delete files and on which every pushed filter is true |
| PlannedScan.ScanConcat | src/storage/uc_table_entry.cpp:145-253 | a scan of more files gives the first failure, or all rows in order |
| PlannedScan.ScanPlan | src/storage/uc_table_entry.cpp:145-253 | draining the lazy list, unless an exchange throws, gives the rows of the eager plan |
| PlannedScan.Scan | src/storage/uc_table_entry.cpp:121-253 | pushdown, planning, draining, deleting and filtering again, unless an exchange throws, give exactly the rows of the unfiltered, fully expanded plan; and what is sent is the filters' document |
| Crc32.UpdateConcat | src/uc_puffin.cpp:48-52 | updating with two pieces is updating with their concatenation |
| Crc32.EntryOfLowByte | src/uc_puffin.cpp:33-46 | eight bit steps are one table entry and one shift |
| Crc32.FeedByte | src/uc_puffin.cpp:48-52 | feeding a byte's bits one by one is xoring the byte in and stepping eight times |
| Crc32.TableByte | src/uc_puffin.cpp:33-52 | the table-driven update of a byte is the bit-at-a-time one |
| Crc32.Crc.Update | src/uc_puffin.cpp:48-52 | the register advances by all the bytes |
| Crc32.ComputeChecksum | src/uc_puffin.cpp:128-130 | the checksum is the CRC-32 of section 8 of RFC 1952, for every byte string |
| Crc32.ChangedByteIsDetected | src/uc_puffin.cpp:48-52 | changing any one byte changes the checksum |
| Crc32.EntryOfHighestBit | src/uc_puffin.cpp:33-46 | the table is that of the polynomial 0xEDB88320 |
| Crc32.ChecksumOfOneByte | src/uc_puffin.cpp:128-130 | the register starts with all ones and is complemented at the end |
| BitSets.BitsReadBack | src/uc_puffin.cpp:116 | the values of a bit set container are read back |
| Roaring.RunsAreLows | src/uc_puffin.cpp:116 | the runs of any values are runs of exactly those values |
| Roaring.SizeOfEncoding | src/uc_puffin.cpp:109-113 | the size of a bitmap of arrays, bit sets and runs is found whatever follows it, exactly when the window holds all of it |
| Roaring.SizeIsSelfDelimiting | src/uc_puffin.cpp:109-116 | read no further than the size found, the same size is found |
| Roaring.HeadersDescribePayload | src/uc_puffin.cpp:109-116 | headers and run flags account for the whole payload and give the containers back |
| Roaring.DecodeOfEncode | test/functions/dv_decode.py:24-42 | an encoded bitmap decodes to itself, whichever of its containers were written as runs |
| RoaringBytes.PlainExactly | src/uc_puffin.cpp:109-113 | of any bytes with the cookie of a serialization without runs and room for their containers' heads, where these are |
| RoaringBytes.RunExactly | src/uc_puffin.cpp:109-113 | the same with runs: which containers are marked, and where the heads end |
| RoaringBytes.HeadExactly | src/uc_puffin.cpp:109-113 | nothing else has a head, more than 65536 containers included |
| RoaringBytes.SizeExactly | src/uc_puffin.cpp:109-113 | any bytes are taken for a bitmap of a size exactly if they start with such a head and then its containers, one after the other, up to that size |
| RoaringBytes.DecodeExactly | src/uc_puffin.cpp:116 | any bitmap is read container by container, each from its own bytes |
| RoaringBytes.ContainerExactly | src/uc_puffin.cpp:116 | the values of a container of any bytes are those its runs cover, its array lists, or its bits mark |
| DeletionVector.CountDown | src/uc_puffin.cpp:104-118 | the wrapping 32-bit count left over is the declared one less what the cursor has passed |
| DeletionVector.DecodeEntries | src/uc_puffin.cpp:97-120 | the cursor loop reads the specified entries from arbitrary bytes and never outside them |
| DeletionVector.CompareChecksum | src/uc_puffin.cpp:122-132 | the stored checksum is compared with that of magic, count and entries |
| DeletionVector.DecodeBlob | src/uc_puffin.cpp:70-134 | the decoder computes the specified result on every blob |
| DeletionVector.AcceptsExactlyTilings | src/uc_puffin.cpp:70-134 | a blob is accepted exactly if magic, count and entries tile it from offset 4 to its last four bytes, and these are the big-endian checksum of the rest, also when the count wraps; and the result is the tiled entries |
| DeletionVector.EarlyRefusals | src/uc_puffin.cpp:75-95 | refused as too small, for its magic or for its count exactly if it is shorter than 20 bytes, has another magic, or the count's sign bit set |
| DeletionVector.LateRefusals | src/uc_puffin.cpp:97-132 | behind the header: refused for a missing key, a missing bitmap, bytes that follow the last entry or lack behind it, or the checksum, each exactly where it is met |
| DeletionVector.DecodeWritten | src/uc_puffin.cpp:70-134 | entries written with room, and with any four bytes at the end, decode to their map if these are the checksum of magic, count and entries, and are refused for it if not |
| DeletionVector.WrongChecksumIsRefused | src/uc_puffin.cpp:122-132 | entries written with room and a wrong sum are refused for it |
| DeletionVector.ChangedByteIsRefused | src/uc_puffin.cpp:122-132 | an accepted blob with any one byte behind its length changed is refused |
| DeletionVector.DecodeEncoded | src/uc_puffin.cpp:68-134 | an encoded list of entries decodes for exactly the declared sizes that leave room for each bitmap |
| DeletionVector.EnoughLeavesRoom | src/uc_puffin.cpp:104-118 | a declared size of at least the body never wraps and always leaves room |
| DeletionVector.RoundTrip | src/uc_puffin.cpp:68-134 | any finite map of keys to bitmaps, encoded, decodes to that map |
| DeletionVector.PackWords | src/uc_puffin.cpp:144-151 | the sign extension of a key cancels under the shift |
| DeletionVector.PackValue | src/uc_puffin.cpp:144-151 | a position is its unsigned key times 2^32 plus the low value |
| DeletionVector.PackInjective | src/uc_puffin.cpp:144-151 | different keys contribute different positions |
| DeletionVector.PositionsAreUnique | src/uc_puffin.cpp:68-154 | each position of a vector decoded from any bytes is the unsigned key times 2^32 plus the value for exactly one key and value of its bitmaps, and every value gives one |
| DeletionVector.ToSet | src/uc_puffin.cpp:143-154 | the positions are exactly those of all bitmaps |
| Puffin.ValidateFooter | src/uc_puffin.cpp:179-199 | the payload found lies between the first magic and the tail, with no subtraction below zero |
| Puffin.Reader.Parse | src/uc_puffin.cpp:252-272 | the blobs listed are those specified, and a failure keeps the old ones |
| Puffin.Reader.Decode | src/uc_puffin.cpp:274-276 | a blob inside the file decodes as its slice |
| Puffin.BlobsInsideFile | src/uc_puffin.cpp:178-272 | every blob a footer yields lies inside the blob section, and a bare vector is the whole file |
| Puffin.FooterExactly | src/uc_puffin.cpp:179-199 | a footer is accepted exactly if both magics are there, all flags are zero and the payload fits |
| Puffin.PayloadExactly | src/uc_puffin.cpp:252-272 | of a Puffin file, what lies between the footer's magic and its tail is parsed and has to hold a list of blobs |
| Puffin.ListedExactly | src/uc_puffin.cpp:201-250 | a list of blobs is accepted exactly if every blob has a type and every deletion vector lies inside the blob section; the vectors are listed in order, and blobs of other types are passed over |
| Puffin.BareExactly | src/uc_puffin.cpp:252-272 | a file that is no Puffin file is a bare vector exactly if it has a vector's magic at offset 4 |
| Puffin.FooterOfWritten | src/uc_puffin.cpp:162-199 | the footer of a written file is found at its place |
| Puffin.WrittenFileReads | src/uc_puffin.cpp:178-276 | a written file lists its blobs at their places with their bytes |
| Puffin.WrittenVectorsDecode | src/uc_puffin.cpp:68-276 | a file written with one vector per map decodes to those maps |
| TypeJson.ReadType | src/uc_utils.cpp:123-144 | the JSON parser as it runs computes its specification |
| TypeJson.ReadStruct | src/uc_utils.cpp:105-121 | the loop appends the children in order and refuses a nameless field, an unreadable type and an empty struct |
| TypeJson.DecimalReadsBack | src/uc_utils.cpp:92-101 | a decimal's text reads back exactly when both numbers fit a byte |
| TypeJson.DecimalExactly | src/uc_utils.cpp:92-101 | any text is a decimal exactly if digits, a comma, digits and a parenthesis follow, each number up to 255; what comes after is ignored |
| TypeJson.NamesExactly | src/uc_utils.cpp:61-103 | the names of types and what they stand for |
| TypeJson.OtherNamesRefused | src/uc_utils.cpp:61-103 | no other name is a type |
| TypeJson.OtherKindsRefused | src/uc_utils.cpp:123-144 | anything but a text is a type only if it says that it is a struct, an array or a map |
| TypeJson.StructExactly | src/uc_utils.cpp:105-121 | a struct is a type exactly if it has fields and each has a name and a type that is read, and then has these children in order |
| TypeJson.ContainersExactly | src/uc_utils.cpp:123-144 | an array is a type exactly if its elements' is, a map exactly if its keys' and its values' are |
| TypeJson.JsonReadsBack | src/uc_utils.cpp:61-144 | a type's JSON parses to its meaning for every type and every field name, and is refused exactly where it has none |
| TypeJson.FieldJsonReadsBack | src/uc_utils.cpp:148-162 | a field entry with that JSON under its key parses to the meaning of its type |
| TypeText.FindChildSeparator | src/uc_utils.cpp:166-179 | the loop finds the next comma that no bracket encloses, or the end |
| TypeText.TypeToLogicalType | src/uc_utils.cpp:188-285 | the text parser as it runs computes its specification, and stops on every text |
| TypeText.ReadTypes | src/uc_utils.cpp:240-257 | the loop over a map's children splits at every separator |
| TypeText.ReadFields | src/uc_utils.cpp:260-279 | the loop over a struct's children splits at every separator and at the first colon |
| TypeText.DecimalParsersAgree | src/uc_utils.cpp:221-230 | without the guards of its counterpart the text parser accepts the same decimals |
| TypeText.SeparatorExactly | src/uc_utils.cpp:166-179 | a separator is the first comma before which no more brackets are opened than closed |
| TypeText.OtherWordsRefused | src/uc_utils.cpp:188-285 | a text is a type only if it is one of the words known, or starts as a type with brackets does |
| TypeText.OlderWords | src/uc_utils.cpp:188-215 | two words are understood that Spark does not write |
| TypeText.CharsExactly | src/uc_utils.cpp:188-285 | whatever follows its parenthesis, a char or varchar is text |
| TypeText.UnclosedRefused | src/uc_utils.cpp:232-279 | a container without a closing bracket is refused |
| TypeText.TailIsIgnored | src/uc_utils.cpp:232-279 | what follows the last bracket of a container is ignored |
| TypeText.MapsHaveTwo | src/uc_utils.cpp:240-257 | a map has exactly two types between its brackets |
| TypeAgreement.TextIsClosed | src/uc_utils.cpp:164-179 | the text of a type has balanced brackets and no comma outside them |
| TypeAgreement.WordsExactly | src/uc_utils.cpp:188-285 | the words Spark writes and what they stand for |
| TypeAgreement.TextReadsBack | src/uc_utils.cpp:188-285 | a type's Spark text parses to its meaning if all its field names are safe, and is refused exactly where it has none |
| TypeAgreement.ParsersAgree | src/uc_utils.cpp:181-186 | both parsers give a type's meaning, or both refuse it, if its field names are safe |
| TypeAgreement.PlainNamesAreSafe | src/uc_utils.cpp:164-179 | names without commas, colons and brackets are safe, and so are some with them |
| TypeAgreement.SafeNamesExactly | src/uc_utils.cpp:181-285 | a name is safe exactly if the two parsers agree on every type that uses it alone and repeats no name within a struct |
| TypeAgreement.ColonBetrays | src/uc_utils.cpp:263-277 | a name with a colon is cut short in struct<n:int> |
| TypeAgreement.CommaBetrays | src/uc_utils.cpp:263-269 | with a name that has a comma no bracket encloses, struct<n:int> is refused |
| TypeAgreement.OpenBetrays | src/uc_utils.cpp:166-179 | with a name that opens more brackets than it closes, map<struct<n:int>,int> is refused |
| TypeAgreement.CloseBetrays | src/uc_utils.cpp:166-179 | with a name that closes more brackets than it opens, struct<n:map<int,int>> is refused |
| WireSchema.WireSchemaCopy | src/uc_api.cpp:385-407 | the copy as it is built is the specified rewriting |
| WireSchema.CopyIsWire | src/uc_api.cpp:370-383 | no copy has one of the five camelCase keys at any depth, or a key twice in one object |
| WireSchema.WireKeysAreDashed | src/uc_api.cpp:370-383 | the five keys are the dashed spelling of the camelCase ones |
| WireSchema.CopyIsIdempotent | src/uc_api.cpp:385-407 | rewriting a rewritten schema changes nothing |
| WireSchema.CopyKeepsEverything | src/uc_api.cpp:385-407 | shape and all values are kept at every depth exactly if no two keys of an object are spelled the same on the wire |
| WireSchema.LastMemberStands | src/uc_api.cpp:391-394 | where keys clash, the last value stands |
| WireSchema.CopyIsUndone | src/uc_api.cpp:375-407 | the inverse renaming undoes it exactly on documents whose keys neither repeat nor are dashed already |
| PollLoop.SleepInSlices | src/uc_api.cpp:1082-1086 | slices of at most 100 ms sum to the sleep exactly, and an interrupt is seen before each |
| PollLoop.SleepFor | src/uc_api.cpp:1080-1081 | the backoff if the server asks for nothing or a negative time, 100 ms if it asks for none, the seconds it asks for up to 60, and 60 s beyond |
| PollLoop.WaitIsBounded | src/uc_api.cpp:1066-1087 | sleeps within the clamp and the budget total at most 359900 ms and number at most 3000 |
| PollLoop.BackoffIsBounded | src/uc_api.cpp:1066-1091 | with no Retry-After there are at most 303 sleeps and 300500 ms, and exactly so many once the budget is used up |
| PollLoop.Poll | src/uc_api.cpp:1070-1096 | whatever the server answers, each fetch asks for the plan told last, every interrupt is seen at the first look at it, and the loop ends with the first reply that is not submitted, or throws on budget, interrupt or error |
| PollLoop.LatestIsLastTold | src/uc_api.cpp:1070-1096 | the plan told last is that of the last fetch that brought a reply, or the first one |
| PollLoop.AwaitPlan | src/uc_api.cpp:1039-1099 | all bounds on the wait, and the length of each sleep; every abort and only an abort cancels, and it cancels the plan told last, unless that has no id |

## Left out

- HTTP, authentication, credentials and their refresh, logging, schema and table caches, transaction stubs and the availability latch of scan planning: no invariant of their own.
- Liveness of the commit protocol: after a rejected commit nothing marks the table dirty, so no claim is made that a retry succeeds.
- The debug assertion on an incoherent LoadTable reply (src/uc_api.cpp:569): the release build's behaviour is modelled.
- Old log entries and staged files removed by maintenance: the log only grows in the model; a staged file that is gone is a copy that cannot be opened.
- Tables that are not catalog-managed attach without any of the protocol's steps.
- DuckDB undoing an attachment when a statement rolls back (src/storage/uc_table_set.cpp:283-289).
- The text of log entry names and of staged paths: entries are keyed by version, staged files by name.
- The presentation of the log tail to the reader (src/storage/uc_table_set.cpp:390-409): its order and versions are those of the reply; the staged directory's path, timestamps and sizes are passed along unchanged.
- CommitSafety.WatermarksAreBackfilled: claims that entries exist, not that they are complete, because the code cannot tell; `CommitSafety.WatermarksAreWhole` says exactly when they are.
- CommitEtags.StoredEtagIsCurrent: speaks of servers that give every version an etag of its own; with repeated or missing etags the cached one says nothing about the version.
- TableCreation.CleanUpKeepsListed: speaks of the catalogs met while cleaning up, because a registration between check and removal is not excluded by the code.
- TableCreation.FailedCreateLeaves: speaks of clean-ups whose own calls work and meet no other client; `TableCreation.CleanUp` and `TableCreation.CleanUpCanRace` say what happens otherwise.
- Other clients change the catalog in the CREATE TABLE model, but not the log at the statement's own location.
- What version 0 contains, and reading it back (src/storage/uc_table_set.cpp:656-713): the write is one call with three outcomes.
- Places in the file system are told apart by their comparable path.
- JSON parsing by yyjson, which is not part of this model: trees are taken as input. Its object put is modelled as replacing the value of an equal key in its place, and appending otherwise.
- Texts with NUL characters in parsed JSON, which the code cuts short where it takes them as C strings.
- CRoaring itself is not part of this model. The portable serialization is modelled as published, for well-formed and malformed bytes; which container a writer chooses for a cardinality of at most 4096 is its own choice between array and runs.
- `%.17g` formatting and the server's typing of literals: a number's text is taken as it is.
- PlannedScan.Scan: assumes a server that compares as DuckDB does, NaN above all numbers; for one whose bounds leave NaN out, `IrcFilter.SafeByBounds` and `IrcFilter.SoundByBoundsExactly` say which filters lose nothing.
- A NULL constant that is not a string makes DuckDB throw, which is not part of this model; what the code does then is (the filter is cleared).
- Column names are compared exactly, although the server is asked to match them without case.
- A file's size, which is passed on to the parquet reader, and the parquet reader itself: a delete file is a list of path and position rows.
- The reserve of a hash table for a huge declared count of bitmaps, which may fail for lack of memory.
- DuckDB's cast of a decimal's precision and scale to a byte is taken as plain decimal digits up to 255.
- TypeAgreement.ParsersAgree: needs safe field names, and `TypeAgreement.SafeNamesExactly` shows that no weaker condition on names will do.
- Retry-After values too large for the millisecond arithmetic, and the text of the header.
