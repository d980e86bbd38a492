# CERN Tape Archive catalogue: a verified model

The catalogue of the CERN Tape Archive records where archived files live on tape. This project
models the part of it where errors lose data, and proves what the operations keep.

- **Tape writes and the recycle log.** The tables TAPE, ARCHIVE_FILE, TAPE_FILE and
  FILE_RECYCLE_LOG (`Tables.dfy`), recording a batch of items written to tape (`Writes.dfy`,
  `WriteInvariant.dfy`), the equivalence of the set-wise back ends (PostgreSQL, Oracle) and the
  row-by-row ones (MySQL, SQLite) (`WriteEquivalence.dfy`), what a write leaves in every column of the
  tables (`WriteEffects.dfy`), deletion to the recycle log (`Recycle.dfy`), restoring from it
  (`Restore.dfy`), and whole histories (`Runs.dfy`).
- **What becomes visible.** The same operations statement by statement on a connection on which
  a fault may strike (`Transactions.dfy`), with what a restore leaves behind for every list and every
  fault (`RestoreFaults.dfy`, `RestoreTransaction.dfy`) and when that keeps the catalogue valid
  (`RestoreInvariant.dfy`), the row-by-row back ends without such a
  transaction (`RowByRow.dfy`), batches that show where back ends differ or leave part of themselves
  (`WriteExamples.dfy`), retries after a lost connection (`Retry.dfy`), any interleaving of sessions
  on the tape row locks (`Locking.dfy`), and the two passes that fill Oracle's column buffers
  (`OracleBatch.dfy`).
- **Listing archive files.** The builder and iterator that turn joined rows into archive files
  (`ArchiveFiles.dfy`), what they compute (`Grouping.dfy`), and which of the sort orders in use
  deliver each file once (`RowOrder.dfy`).
- **Schema tools.** Dropping all tables (`DropSchema.dfy`), comparing schemas
  (`SchemaCompare.dfy`), splitting SQL text (`SqlSplitter.dfy`).

A statement of SQL is modelled by its effect on the tables. The current time, the full flag of a
tape to be reclaimed, the faults of a connection and the references between tables are parameters.
`dafny verify dfyconfig.toml` checks the whole project.

## Where the code differs from what is said about it

- Restoring stamps the tape file with the current time, not with the logged creation time
  (`DeleteThenRestore`).
- The comment on restoring says that nothing is done for a wholly deleted file. The lookup raises
  an error for it and ends the restore (`RestoreOneExact`).
- Restoring a list is announced as one transaction, but `insertTapeFile` commits on its own. A
  refused list keeps the entries before the refused one on every back end. When the restore is all or
  nothing is stated exactly, without a fault (`UndisturbedIsWholeExactly`) and with one at any request
  (`RestoreIsWholeExactly`, `ClearRestoreIsWholeExactly`); `PostgresRestoreStopsHalfway` shows it
  failing.
- On Oracle and MySQL, where autocommit is off after that commit, a table constraint that refuses an
  entry also undoes the deletion of the previous entry's log row, so that its position is both live
  and logged and the catalogue is no longer valid. This happens exactly when an entry with a free copy
  number meets a block in use after another entry has been restored (`UndisturbedKeepsInvExactly`,
  `LateBlockBreaksInv`, `OracleRestorePublishesHalf`).
- `deleteTapeFileCopy` has no automatic rollback and the connection pool commits what it is given
  back. On Oracle a failure of the third or fourth request publishes the log row without the
  deletion (`DeleteTapeFileCopy`, `OracleDeletePublishesHalf`).
- The back ends do not accept the same batches (`WritesAcceptTheSame`). They disagree on a batch that
  reuses the block of a copy it displaces (`BlockReuseDiffers`), on one that repeats an archive file
  identifier (`RepeatedIdentifierDiffers`), and on an unknown storage class of an archive file that
  exists (`UnknownClassDiffers`).
- Oracle skips an archive file that clashes with any unique constraint and finds it missing later,
  where PostgreSQL reports the constraint at the commit (`RecordingsAgree`).
- Deleting a whole file logs the copies that the caller had read but deletes those that exist
  (`DeleteFileConservesExact`, `StaleSnapshotLosesPosition`).
- An archive file identifier that is used again with another size breaks the agreement of sizes on
  a later restore (`RecordLogSizesExact`, `RestoreSizesExact`, `ReusedIdBreaksSizes`).
- Listing files for repack repeats copies if one file has two copies on the tape
  (`RepackListsOnceExactly`, `CopiesListedTwice`).
- A search on one tape delivers a file twice if its copies there are not adjacent
  (`TapeOrderDeliversOnceExactly`, `CopiesApartDeliveredTwice`).
- On SQLite a refused batch can leave a position live and logged; on MySQL it can leave part of the
  batch (`RefusalKeepsInvExactly`, `RefusalChangesNothingExactly`, `SqliteLeavesLiveAndLogged`,
  `MysqlLeavesPart`).
- Reclaiming a tape checks that it is empty and resets its counters without a lock in between, which
  keeps positions consistent exactly when the tape is unused at the reset (`ResetKeepsConsistentExactly`,
  `WrittenWhileReclaimed`).
- A connection that is lost during a commit is reported as such by PostgreSQL and retried; Oracle
  reports a plain error, which is not (`FilesWrittenToTape`).
- On MySQL drawing a recycle log identifier commits, so that a tape row lock can be released before
  the first file of a batch is inserted (`SchedulesAreSafe`).

## Model

| member | source | states |
|---|---|---|
| `Tables.MoveKeepsHeldOnce` | CTA/catalogue/PostgresCatalogue.cpp:518-537 | Logging displaced copies, inserting rows at unheld positions and deleting the displaced ones leaves no position twice across TAPE_FILE and FILE_RECYCLE_LOG |
| `Tables.MoveAddsPositions` | CTA/catalogue/PostgresCatalogue.cpp:518-537 | Live plus logged positions grow by exactly the inserted ones |
| `Tables.RemovalConserves` | CTA/catalogue/PostgresCatalogue.cpp:1080-1110 | Moving live copies to the log loses and duplicates no position |
| `Writes.ItemsErrorExact` | CTA/catalogue/PostgresCatalogue.cpp:392-419 | The loop over the items raises no error if and only if every item is complete, on the tape of the first one, and at consecutive positions after the tape's last one |
| `Writes.ItemsErrorFirst` | CTA/catalogue/PostgresCatalogue.cpp:392-419 | The first item that does not follow decides the error: incomplete, another tape, another position, or a file that is incomplete, in this order |
| `Writes.VerifyErrorExact` | CTA/catalogue/PostgresCatalogue.cpp:443-470 | The verification loop passes if and only if every event finds its archive file with its size and checksum |
| `Writes.VerifyErrorFirst` | CTA/catalogue/PostgresCatalogue.cpp:443-470 | The first event that disagrees decides the error: archive file missing, size, or checksum, in this order |
| `WriteInvariant.HeaderExact` | CTA/catalogue/PostgresCatalogue.cpp:379-419 | The checks before any change pass exactly when the tape exists and the items continue it without a gap |
| `WriteInvariant.HeaderPlaces` | CTA/catalogue/PostgresCatalogue.cpp:379-407 | In a valid catalogue an accepted header makes every new position one that nothing live or logged holds |
| `WriteInvariant.RecordConserves` | CTA/catalogue/PostgresCatalogue.cpp:518-537 | Repack conservation: exactly the displaced copies leave TAPE_FILE, each is logged exactly once with the row that the catalogue knows, every other live row stays as it was, a just inserted row is never deleted, and the accounted positions grow by exactly those of the batch |
| `WriteInvariant.RecordKeepsOneCopy` | CTA/catalogue/PostgresCatalogue.cpp:672-718 | After a batch there is still at most one live copy per archive file and copy number, also against copies within the batch |
| `WriteInvariant.RecordLogSizesExact` | CTA/catalogue/PostgresCatalogue.cpp:552-667 | Log rows keep the size of their archive file if and only if no created archive file takes up an identifier that the log remembers with another size |
| `WriteInvariant.WriteKeepsInv` | CTA/catalogue/PostgresCatalogue.cpp:360-547 | An accepted set-wise batch keeps the whole catalogue invariant, adds exactly its file positions, and moves only its own tape |
| `WriteInvariant.WriteRowExact` | CTA/catalogue/MysqlCatalogue.cpp:475-534 | Writing one file by row is accepted exactly when the one-event batch is accepted set-wise and its storage class exists, with the same result |
| `WriteInvariant.WriteRowWiseKeepsInv` | CTA/catalogue/MysqlCatalogue.cpp:408-472 | An accepted row-by-row batch keeps the invariant and adds exactly its file positions, even if identifiers repeat within it |
| `WriteEquivalence.RecordSplit` | CTA/catalogue/PostgresCatalogue.cpp:518-537 | Recording a batch with distinct identifiers set-wise is recording its prefix and then its last event, possible exactly when both are and the block is unused |
| `WriteEquivalence.WritesAcceptTheSame` | CTA/catalogue/MysqlCatalogue.cpp:427-441 | A batch with distinct identifiers that reuses no live block is accepted by row exactly when it is accepted set-wise with existing storage classes; where both accept, all tables end equal |
| `WriteEquivalence.SkippingIsDeferring` | CTA/catalogue/OracleCatalogue.cpp:614-758 | For distinct identifiers Oracle's skipping of conflicting archive rows leaves every event's archive file present exactly when PostgreSQL's deferred constraint holds and does so there, and then the tables are equal |
| `WriteEquivalence.RecordingsAgree` | CTA/catalogue/OracleCatalogue.cpp:614-758 | Oracle's recording succeeds exactly when PostgreSQL's does, with the same result, for any events; refusals are the same too unless the disk file constraint is at stake |
| `WriteEquivalence.SetWiseWritesAgree` | CTA/catalogue/OracleCatalogue.cpp:390-612 | Oracle and PostgreSQL accept the same batches with the same result |
| `WriteEffects.SetWiseEffect` | CTA/catalogue/PostgresCatalogue.cpp:360-547 | What an accepted batch leaves on PostgreSQL and Oracle, column by column: a new archive file has the disk instance, disk file identifier, owner, group, size, checksum and storage class of its first event; a copy is live with the event's columns and the time of writing unless a later event is for the same copy; an old copy stays unless replaced; each replaced copy is logged exactly once with its columns and those of its archive file; one tape moves |
| `WriteEffects.RowWiseEffect` | CTA/catalogue/MysqlCatalogue.cpp:408-534 | The same for MySQL and SQLite, even if archive files or copies repeat within the batch |
| `WriteEffects.EffectIsUnique` | CTA/catalogue/PostgresCatalogue.cpp:552-718 | These statements determine the resulting catalogue completely |
| `WriteEffects.IncompleteExactly` | CTA/catalogue/RdbmsCatalogue.cpp:8730-8779 | A single item is refused as incomplete by the set-wise back ends if and only if one of the columns named is missing |
| `WriteEffects.IncompleteRowExactly` | CTA/catalogue/MysqlCatalogue.cpp:475-478 | The same for the row-by-row back ends |
| `WriteEffects.DuplicateExactly` | CTA/catalogue/PostgresCatalogue.cpp:721-760 | PostgreSQL reports a repeated archive file identifier if and only if its archive file exists or an event with an existing storage class creates it |
| `WriteExamples.BlockReuseDiffers` | CTA/catalogue/common_catalogue_schema.sql:254-269 | A concrete batch on a valid catalogue that the row-by-row write accepts and the set-wise write refuses, because of the block constraint |
| `WriteExamples.RepeatedIdentifierDiffers` | CTA/catalogue/PostgresCatalogue.cpp:749-754 | A concrete batch with a repeated archive file identifier that the row-by-row write accepts and the set-wise write refuses |
| `WriteExamples.UnknownClassDiffers` | CTA/catalogue/RdbmsCatalogue.cpp:6970-6975 | A concrete batch naming an unknown storage class for an existing archive file that the set-wise write accepts and the row-by-row write refuses |
| `WriteExamples.SqliteLeavesLiveAndLogged` | CTA/catalogue/SqliteCatalogue.cpp:474-516 | A concrete refused batch after which a position is live and logged on SQLite |
| `WriteExamples.MysqlLeavesPart` | CTA/catalogue/MysqlCatalogue.cpp:427-441 | A concrete refused batch whose first file MySQL has recorded and published, with the tape counter moved |
| `Recycle.DeletedCopy` | CTA/catalogue/RdbmsCatalogue.cpp:7431-7456 | A successful deletion of a copy moves one copy of that file on that tape, and another copy of the file stays live |
| `Recycle.DeleteCopyExact` | CTA/catalogue/RdbmsCatalogue.cpp:7431-7456 | A copy can be deleted if and only if the archive file has exactly one copy on the named tape and another one elsewhere |
| `Recycle.DeleteCopyErrors` | CTA/catalogue/RdbmsCatalogue.cpp:7431-7456 | When each of the four refusals is given |
| `Recycle.MoveToLogRemembers` | CTA/catalogue/RdbmsCatalogue.cpp:9312-9361 | Each copy moved to the log is logged once with all its columns and the disk identity and size of its archive file, and no other log row changes |
| `Recycle.DeleteCopyKeepsInv` | CTA/catalogue/PostgresCatalogue.cpp:1080-1110 | Deleting a copy keeps the invariant and every accounted position |
| `Recycle.DeleteFileConservesExact` | CTA/catalogue/RdbmsCatalogue.cpp:8941-9021 | Deleting a whole file keeps every position accounted for exactly once if and only if the caller's snapshot lists exactly the file's live copies |
| `Recycle.DeleteFileLogsExactly` | CTA/catalogue/RdbmsCatalogue.cpp:9027-9047 | Deleting a whole file logs the same rows as moving its live copies to the log would if and only if the caller's snapshot is of that file and lists exactly its live copies with their block, copy number and creation time |
| `Recycle.DeleteFileRemoves` | CTA/catalogue/RdbmsCatalogue.cpp:9059-9080 | The archive file and all its copies leave the tables and nothing else changes in them |
| `Recycle.DeleteFileExact` | CTA/catalogue/RdbmsCatalogue.cpp:8753-8770 | A request without a file does nothing; with a current snapshot a request is accepted exactly when its disk instance is that of the file and it has a path |
| `Recycle.DeleteFileKeepsInv` | CTA/catalogue/PostgresCatalogue.cpp:1018-1048 | With a current snapshot deleting a whole file keeps the invariant and every accounted position |
| `Restore.WithoutEntryExact` | CTA/catalogue/RdbmsCatalogue.cpp:9284-9307 | The key used to delete a restored entry removes that log row and no other, in a log that holds every position once |
| `Restore.RestoreOneExact` | CTA/catalogue/PostgresCatalogue.cpp:1130-1149 | One entry succeeds exactly when its archive file exists and, if found under its logged disk identity, neither its copy number nor its block is live; it is then moved, otherwise passed over |
| `Restore.RestoreOneCases` | CTA/catalogue/PostgresCatalogue.cpp:1130-1149 | Told by columns: an entry is an error exactly when its archive file is gone, is passed over exactly when that file has another disk instance or disk file identifier or no live copy, and is refused exactly when its copy number, or else its block, is live |
| `Restore.RestoreOneKeepsInv` | CTA/catalogue/PostgresCatalogue.cpp:1168-1184 | Restoring an entry keeps the invariant, sizes included, and every accounted position |
| `Restore.RestoreAllKeepsInv` | CTA/catalogue/PostgresCatalogue.cpp:1129-1151 | A list of entries keeps the invariant wherever it stops, and changes no tape and no archive file |
| `Restore.RestoreAllExact` | CTA/catalogue/PostgresCatalogue.cpp:1129-1151 | A list can be restored if and only if all its archive files exist and no restorable entry clashes, by copy number or block, with a live copy or an earlier restorable entry |
| `Restore.RestoreAllMoves` | CTA/catalogue/PostgresCatalogue.cpp:1129-1151 | A successful restore moves precisely the restorable entries, displaces nothing and brings back no archive file |
| `Restore.DeleteThenRestore` | CTA/catalogue/PostgresCatalogue.cpp:1080-1184 | Round trip: deleting a copy and restoring its log entry gives back the identical catalogue except for the creation time of the copy |
| `Runs.StepKeepsInv` | CTA/catalogue/RdbmsCatalogue.cpp:8908-9021 | On each of the four back ends, each of the operations create tape, write with whatever a refusal by row leaves, delete copy, delete file, restore with whatever a refused list leaves, change disk file identifier and reclaim keeps the invariant under the duties named |
| `Runs.WriteStepExact` | CTA/catalogue/MysqlCatalogue.cpp:408-472 | On each back end an accepted batch has its full effect; a refused one changes nothing on PostgreSQL and Oracle, nothing on MySQL and SQLite if its header is refused, and otherwise leaves what a stop at one of its files can leave |
| `Runs.CreateTapeExact` | CTA/catalogue/RdbmsCatalogue.cpp:3523-3578 | As far as its name is concerned a tape is created exactly when it has one and is new; it starts empty and nothing else changes |
| `Runs.AddedClassIsKnown` | CTA/catalogue/RdbmsCatalogue.cpp:6970-6975 | A write does not miss a storage class that has been added |
| `Runs.NeglectBreaksInv` | CTA/catalogue/MysqlCatalogue.cpp:826-875 | The duty of a restore on Oracle and MySQL and that of a refused write on SQLite are exact: a step that neglects only them breaks the invariant |
| `Runs.LateBlockBreaksInv` | CTA/catalogue/MysqlCatalogue.cpp:826-875 | A concrete list on a valid catalogue whose refusal breaks the invariant on Oracle and MySQL and keeps it on PostgreSQL and SQLite |
| `Runs.ReclaimKeepsInv` | CTA/catalogue/RdbmsCatalogue.cpp:4494-4535 | Reclaiming a full tape without live copies, which purges its log rows and resets its counters, keeps the invariant |
| `Runs.ReclaimExact` | CTA/catalogue/RdbmsCatalogue.cpp:4494-4535 | A tape can be reclaimed exactly when it exists, is full and has no live copy; its log rows go and its counters are zero, and everything else stays, the log rows of other tapes included |
| `Runs.ReclaimForgets` | CTA/catalogue/RdbmsCatalogue.cpp:9410-9416 | Exactly the positions of that tape are no longer accounted for |
| `Runs.UpdateDiskFileIdKeepsInv` | CTA/catalogue/RdbmsCatalogue.cpp:8908-8935 | Changing the disk file identifier of an archive file keeps the invariant |
| `Runs.UpdateDiskFileIdExact` | CTA/catalogue/RdbmsCatalogue.cpp:8908-8935 | It succeeds exactly when the archive file exists and no other one has the new disk identity, and changes those two columns of that row only |
| `Runs.MovedFileIsPassedOver` | CTA/catalogue/PostgresCatalogue.cpp:1130-1137 | On every back end: after a copy was deleted and its archive file got another disk identity, restoring the logged copy leaves the catalogue as it is |
| `Runs.RunKeepsInv` | CTA/catalogue/PostgresCatalogue.cpp:360-547 | Safety over every serial run of operations of any length on any one back end |
| `Runs.HistoryIsBalanced` | CTA/catalogue/RdbmsCatalogue.cpp:7824-7855 | Over any history on any back end the items whose tape update was published since the creation or reclaim of a tape sit at exactly 1..lastFSeq in order, and its byte counter is the sum of the file sizes among them, for each tape independently |
| `Runs.CatalogueHistory` | CTA/catalogue/PostgresCatalogue.cpp:379-432 | Both results together for every run from the empty catalogue on any back end |
| `Runs.RestoreSizesExact` | CTA/catalogue/PostgresCatalogue.cpp:1168-1184 | Restoring keeps tape file and archive file sizes equal if and only if the entry is passed over or its archive file still has the logged size |
| `Runs.StaleSnapshotLosesPosition` | CTA/catalogue/RdbmsCatalogue.cpp:9059-9080 | A concrete deletion with an outdated snapshot after which a tape position is neither live nor logged |
| `Runs.ReusedIdBreaksSizes` | CTA/catalogue/PostgresCatalogue.cpp:552-667 | A concrete run that uses an archive file identifier again and ends with copies of two sizes |
| `Transactions.Conn.Exec` | CTA/rdbms/wrapper/OcciStmt.cpp:238-252 | A statement publishes its effect by itself exactly in autocommit mode; a failing one aborts a PostgreSQL transaction and leaves an Oracle one alone |
| `Transactions.Conn.Commit` | CTA/rdbms/wrapper/PostgresConn.cpp:94-111 | A commit publishes the session's work unless the transaction was aborted; a lost reply may hide a commit that took place |
| `Transactions.Conn.GiveBack` | CTA/rdbms/ConnPool.cpp:76-142 | The pool commits an open connection that is given back |
| `Transactions.CheckItems` | CTA/catalogue/PostgresCatalogue.cpp:392-419 | The loop returns the first error of the items in their order, or else the total bytes and exactly the file events |
| `Transactions.RecordInTransaction` | CTA/catalogue/PostgresCatalogue.cpp:434-537 | The statements of a write refine the specification of its back end, with its errors, and publish nothing, whichever of them fails |
| `Transactions.FilesWrittenToTape` | CTA/catalogue/PostgresCatalogue.cpp:360-547 | All or nothing for PostgreSQL and Oracle with a fault at any request: others see the old state or the complete new one of that back end's specification, the latter unannounced only if the reply to the commit was lost; a refusal is that of the specification; Oracle reports a failed commit, PostgreSQL a lost connection |
| `Transactions.DeleteTapeFileCopy` | CTA/catalogue/OracleCatalogue.cpp:1120-1134 | A partial state is published if and only if the back end is Oracle, the connection survives, the deletion would succeed and the third or fourth request fails; the state is then the log row without the deletion |
| `Transactions.MoveArchiveFileToRecycleLog` | CTA/catalogue/OracleCatalogue.cpp:1060-1074 | Deleting a whole file is all or nothing with a fault at any request, including Oracle's form in which the last statement publishes everything |
| `Transactions.OracleDeletePublishesHalf` | CTA/catalogue/OracleCatalogue.cpp:1120-1134 | A concrete call after which a position is live and logged |
| `RestoreTransaction.RestoreEntry` | CTA/catalogue/OracleCatalogue.cpp:1170-1190 | One turn of the restore loop on either back end: what others and the session see afterwards, for a fault at any of its requests or none |
| `RestoreTransaction.RestoreFileCopies` | CTA/catalogue/OracleCatalogue.cpp:1155-1205 | For every list and every fault the state left behind is given exactly; it is all or nothing if and only if the fault strikes at a harmless point; undisturbed the list succeeds exactly when it is clear, is all or nothing exactly when it is clear or an entry is refused before any is restored, and leaves a valid catalogue exactly on PostgreSQL or when it is not stopped by a block after an entry was restored |
| `RestoreFaults.RestoreIsWholeExactly` | CTA/catalogue/PostgresCatalogue.cpp:1115-1163 | For every list and every fault: nothing or all of the list becomes visible if and only if the fault strikes at a harmless point |
| `RestoreFaults.UndisturbedIsWholeExactly` | CTA/catalogue/PostgresCatalogue.cpp:1115-1163 | Without a fault: nothing or all of the list becomes visible if and only if the list is clear or an entry is refused before any other one is restored |
| `RestoreFaults.ClearRestoreIsWholeExactly` | CTA/catalogue/OracleCatalogue.cpp:1169-1192 | For a clear list and a fault at the d-th request for entry i, counted from the fuse: the exact condition in terms of the entries restored before and left after it, the back end and the kind of fault |
| `RestoreFaults.ClearRestoreEndsWholeExactly` | CTA/catalogue/OracleCatalogue.cpp:1191-1192 | For a clear list and a fault at the final commit: all or nothing exactly on PostgreSQL, with nothing to restore, or if the commit was executed |
| `RestoreFaults.RequestsCounted` | CTA/catalogue/RdbmsCatalogue.cpp:8151-8206 | A clear list makes one request per entry and four more per restored entry |
| `RestoreFaults.UndisturbedStopsCleanly` | CTA/catalogue/OracleCatalogue.cpp:1169-1192 | Without a fault a refused list leaves the entries before the refused one, except on Oracle after a table constraint and a restored entry, where a position is then held twice |
| `RestoreInvariant.ConstraintExactly` | CTA/catalogue/PostgresCatalogue.cpp:1129-1151 | A list is refused by a table constraint exactly when, behind a clear prefix, an entry can be found, has a free copy number and meets the block of a live copy or of an earlier restorable entry |
| `RestoreInvariant.StoppedLateExactly` | CTA/catalogue/OracleCatalogue.cpp:1169-1192 | ... and has changed the catalogue by then exactly when an earlier entry can be found |
| `RestoreInvariant.UndisturbedKeepsInvExactly` | CTA/catalogue/OracleCatalogue.cpp:1169-1192 | Without a fault a list leaves a valid catalogue if and only if the back end publishes statements after a commit or the list is not stopped by a block after an entry was restored; the condition is one of the catalogue and the list |
| `RestoreFaults.LeftIsReached` | CTA/catalogue/PostgresCatalogue.cpp:1129-1151 | With any fault the first k entries are restored and possibly the next one by half |
| `RestoreTransaction.OracleRestorePublishesHalf` | CTA/catalogue/OracleCatalogue.cpp:1169-1192 | A concrete list of two entries whose refusal leaves a position live and logged |
| `RestoreTransaction.PostgresRestoreStopsHalfway` | CTA/catalogue/PostgresCatalogue.cpp:1129-1151 | A concrete list of two entries that PostgreSQL refuses while the first entry stays restored |
| `RowByRow.Session.Exec` | CTA/catalogue/SqliteCatalogue.cpp:474-516 | On SQLite every statement publishes its effect, on MySQL none does before a commit |
| `RowByRow.InsertTapeFile` | CTA/catalogue/RdbmsCatalogue.cpp:8151-8206 | Succeeds exactly when the constraints allow the row, then publishing the row, the log rows and the deletions; otherwise what stays published is stated for both back ends |
| `RowByRow.LogCopies` | CTA/catalogue/RdbmsCatalogue.cpp:9312-9361 | One log row per displaced copy in any order; on MySQL all but the last are published on the way, because drawing an identifier commits |
| `RowByRow.FileWrittenToTape` | CTA/catalogue/SqliteCatalogue.cpp:528-590 | Refines the row specification and states what a refused file leaves published and which error is reported, SQLite telling a clash of disk files where MySQL finds the archive file missing |
| `RowByRow.FilesWrittenToTape` | CTA/catalogue/MysqlCatalogue.cpp:408-472 | Accepts exactly what the row-by-row specification accepts, with its result; a refused header leaves nothing, any other refusal leaves the files before the failing one and what that one had done; the reported error is given for both back ends |
| `RowByRow.RefusalChangesNothingExactly` | CTA/catalogue/MysqlCatalogue.cpp:408-472 | A batch refused after the header check changes nothing if and only if the back end is MySQL and the first file fails before it logs a copy |
| `RowByRow.RefusalKeepsInvExactly` | CTA/catalogue/SqliteCatalogue.cpp:474-516 | What a refused batch leaves is a valid catalogue if and only if the back end is MySQL or the failing file had logged no copy |
| `Retry.RecordedBatchIsRefused` | CTA/catalogue/PostgresCatalogue.cpp:379-407 | A recorded batch is refused with an fSeq mismatch in every later state whose tape has not gone back, on either set-wise back end |
| `Retry.FilesWrittenWithRetry` | CTA/catalogue/retryOnLostConnection.hpp:45-68 | Retrying any number of times, with the connection lost anywhere and the catalogue changed by others before each try in any way that does not set the tape back, records a batch at most once; success means it was recorded by the last try, and a refusal after it was recorded is an fSeq mismatch; it is repeated exactly while the connection is lost and tries are left |
| `Locking.NoCollision` | CTA/catalogue/MysqlCatalogue.cpp:338-441 | No action of any session inserts at a position that has a row, although MySQL releases the lock at the first inserted file or, if this file displaces a copy, before it |
| `Locking.ActionKeepsConsistent` | CTA/catalogue/PostgresCatalogue.cpp:333-355 | Each action keeps the lock exclusive and the holder's reading of LAST_FSEQ the committed one |
| `Locking.SchedulesAreSafe` | CTA/catalogue/PostgresCatalogue.cpp:379-407 | In every interleaving of any number of sessions, deletions and resets of unused tapes, the positions given away on a tape have no gap, are not given twice until it is reclaimed, its byte counter is the sum of the files recorded there, and each session inserts only at its own positions |
| `Locking.NothingForgotten` | CTA/catalogue/MysqlCatalogue.cpp:456-463 | A session that writes divides its batch into the rows it inserts at once and those that wait, and each later insertion takes one from those that wait; the rows are its own, and no other row or session changes |
| `Locking.FilesAreAccessible` | CTA/catalogue/MysqlCatalogue.cpp:456-463 | In every interleaving a file recorded on a tape has its row or a session that will still insert it, unless the row was deleted or that session broke off |
| `Locking.LostIsLost` | CTA/catalogue/MysqlCatalogue.cpp:456-463 | What is deleted, or was waiting in a session that breaks off, has neither a row nor a session that will insert it afterwards |
| `Locking.WriteIsPossible` | CTA/catalogue/PostgresCatalogue.cpp:333-355 | An idle session can lock any tape that no other session holds and then record any batch that continues it |
| `Locking.DrainsToTheEnd` | CTA/catalogue/MysqlCatalogue.cpp:456-463 | A session that has released the lock can insert all its remaining files, one action each, and is idle afterwards |
| `Locking.ResetKeepsConsistentExactly` | CTA/catalogue/RdbmsCatalogue.cpp:4494-4535 | Resetting the counters of a tape while other sessions work keeps locks, readings and positions consistent if and only if no copy is on the tape and no session has a file left to insert there |
| `Locking.WrittenWhileReclaimed` | CTA/catalogue/RdbmsCatalogue.cpp:4494-4535 | A concrete interleaving in which a tape is written before the reset of its reclaim, whose position 1 is then free to be given again |
| `OracleBatch.OcciColumn.SetFieldLen` | CTA/rdbms/wrapper/OcciColumn.cpp:62-84 | A length is recorded exactly when the buffer is not allocated and the index is a row; the write goes outside of the array exactly when there is no row; no other length changes |
| `OracleBatch.OcciColumn.SetFieldValue` | CTA/rdbms/wrapper/OcciColumn.cpp:95-150 | A value is stored exactly when it and its terminator fit the longest recorded length and the index is a row, refused or written outside as stated otherwise; the row then holds the string padded with null characters and every other row keeps its own |
| `OracleBatch.InsertLargest` | CTA/catalogue/TapeItemImplementation.cpp:44-46 | Inserting an event with the largest fSeq into the ordered set appends it |
| `OracleBatch.InsertOrderedExact` | CTA/catalogue/TapeItemImplementation.cpp:44-46 | Inserting into the ordered set keeps the order and adds the event if and only if its fSeq is not present |
| `OracleBatch.CountFiles` | CTA/catalogue/OracleCatalogue.cpp:414-416 | The count of file events is the number of file events |
| `OracleBatch.RecordLengths` | CTA/catalogue/OracleCatalogue.cpp:410-457 | The filtered event set iterates as the file events of the batch, and the length at index k is that of the k-th file event's value |
| `OracleBatch.FillColumn` | CTA/catalogue/OracleCatalogue.cpp:410-471 | Both passes stay within the column and succeed if and only if every value fits a 16-bit length, and then row k holds the k-th file event's value under the length recorded for it |
| `ArchiveFiles.ArchiveFileBuilder.Append` | CTA/catalogue/ArchiveFileBuilder.hpp:112-176 | Refines the append specification, errors included |
| `ArchiveFiles.ArchiveFileItor.HasMore` | CTA/catalogue/RdbmsCatalogueGetArchiveFilesItor.cpp:212-226 | True exactly when the remaining deliveries are not empty; changes none of them |
| `ArchiveFiles.ArchiveFileItor.Next` | CTA/catalogue/RdbmsCatalogueGetArchiveFilesItor.cpp:231-288 | Delivers the first remaining file exactly when there is one and hasMore was called; never throws for a missing file under construction; the rows left plus the pending file shrink strictly |
| `Grouping.NeighboursDiffer` | CTA/catalogue/ArchiveFileBuilder.hpp:112-176 | The reference grouping cuts into maximal runs |
| `Grouping.IteratorGroupsExactly` | CTA/catalogue/ArchiveFileBuilder.hpp:112-176 | Running the iterator to exhaustion equals the reference grouping if and only if no row without tape files shares its identifier with a neighbour in the two ways named |
| `Grouping.NothingLost` | CTA/catalogue/RdbmsCatalogueGetArchiveFilesItor.cpp:231-288 | Flattening the deliveries gives the tape files of the rows in order, none lost or repeated, whatever the rows |
| `Grouping.Collect` | CTA/catalogue/RdbmsCatalogueGetArchiveFilesItor.cpp:212-288 | The hasMore/next loop terminates with exactly these results |
| `RowOrder.DeliveredOnceAndWhole` | CTA/catalogue/RdbmsCatalogueGetArchiveFilesItor.cpp:212-288 | Every archive file of the rows is delivered; none is delivered twice if and only if the rows are contiguous, and then each with all its selected copies |
| `RowOrder.DiskFileOrderIsContiguous` | CTA/catalogue/RdbmsCatalogueGetArchiveFilesItor.cpp:154-160 | Ordering by disk file identifier within one disk instance makes equal archive files contiguous |
| `RowOrder.TapeOrderDeliversOnceExactly` | CTA/catalogue/RdbmsCatalogueGetArchiveFilesItor.cpp:154-155 | A search on one tape delivers no file twice if and only if no selected copy of another file lies between two selected copies of one |
| `RowOrder.CopiesApartDeliveredTwice` | CTA/catalogue/RdbmsCatalogueGetArchiveFilesItor.cpp:154-155 | A concrete valid catalogue on which such a search delivers a file twice |
| `RowOrder.SingleFileIsOneGroup` | CTA/catalogue/PostgresCatalogue.cpp:1131-1141 | The lookup that guards a restore delivers one archive file with all its rows |
| `RowOrder.GuardSeesLiveCopies` | CTA/catalogue/PostgresCatalogue.cpp:1137-1147 | The lookup delivers nothing exactly when the file has no live copy, and otherwise finds a copy number exactly when a live copy has it |
| `RowOrder.RepackListsOnceExactly` | CTA/catalogue/RdbmsCatalogueGetArchiveFilesForRepackItor.cpp:98-114 | The self-join lists every copy at most once if and only if no file has two copies on the tape to be repacked |
| `RowOrder.RepackOrderIsContiguous` | CTA/catalogue/RdbmsCatalogueGetArchiveFilesForRepackItor.cpp:98-114 | In that case ordering by fSeq makes equal archive files contiguous |
| `RowOrder.CopiesListedTwice` | CTA/catalogue/RdbmsCatalogueGetArchiveFilesForRepackItor.cpp:98-114 | A concrete valid catalogue in which the self-join lists copies twice |
| `DropSchema.DropDatabaseTables` | CTA/catalogue/DropSchemaCmd.cpp:128-153 | Succeeds if and only if references between distinct tables form no cycle; the leftover is the largest set of tables each referenced by another of it; at most one more pass than there are tables |
| `DropSchema.LargestStuckIsUnique` | CTA/catalogue/DropSchemaCmd.cpp:128-153 | The leftover does not depend on the order in which names are listed |
| `DropSchema.NoneLeftIffAcyclic` | CTA/catalogue/DropSchemaCmd.cpp:128-153 | The leftover is empty exactly when there is no cycle |
| `SchemaCompare.SchemaCheckerResult.AddError` | CTA/catalogue/SchemaCheckerResult.cpp:56-59 | Failed holds exactly when the error list is not empty, kept by every operation |
| `SchemaCompare.SchemaCheckerResult.Append` | CTA/catalogue/SchemaCheckerResult.cpp:43-51 | Appending a result joins errors and warnings in order and keeps that equivalence |
| `SchemaCompare.CompareItems` | CTA/catalogue/SQLiteSchemaComparer.cpp:93-106 | Succeeds exactly when both sides have the same items; the errors are exactly those of the differences |
| `SchemaCompare.CompareTableColumns` | CTA/catalogue/SQLiteSchemaComparer.cpp:134-162 | Succeeds exactly when every table, column and type of the first side is on the second; the errors are exactly those of the differences |
| `SchemaCompare.WithinBothWays` | CTA/catalogue/SQLiteSchemaComparer.cpp:108-132 | The two directions together are equality of the maps |
| `SchemaCompare.CompareTables` | CTA/catalogue/SQLiteSchemaComparer.cpp:108-132 | Succeeds exactly when the listed tables agree in columns and types and, where compared, in their constraint sets; the errors are exactly those of the differences in constraints and, both ways, in columns |
| `SchemaCompare.AgreeExact` | CTA/catalogue/SQLiteSchemaComparer.cpp:108-132 | This agreement, told by what the metadata getters return: the same tables, and for each the same columns with the same types and the same constraints |
| `SchemaCompare.ItemErrorsDiffer` | CTA/catalogue/SQLiteSchemaComparer.cpp:93-106 | Errors for different items, or for different databases, are different texts |
| `SchemaCompare.ColumnErrorsDiffer` | CTA/catalogue/SQLiteSchemaComparer.cpp:134-162 | Errors for different missing columns, or for different expected types of a column, are different texts |
| `SchemaCompare.CompareTablesLocatedInSchema` | CTA/catalogue/SQLiteSchemaComparer.cpp:61-72 | The same with the database restricted to schema tables |
| `SqlSplitter.GetAllStatementsFromSchema` | CTA/catalogue/SchemaSqlStatementsReader.cpp:71-90 | Returns the non-empty trimmed texts in front of each semicolon, in order, each with its semicolon; the result, concatenated and split again, gives the same statements |
| `SqlSplitter.ExecuteNonQueries` | CTA/catalogue/CreateSchemaCmd.cpp:130-147 | Executes exactly those statements in order up to the first one that fails |
| `SqlSplitter.TrimCutsBlanks` | CTA/common/utils/utils.cpp:271-296 | Trimming cuts only blanks and leaves none at the ends |
| `SqlSplitter.SplitJoin` | CTA/catalogue/SchemaSqlStatementsReader.cpp:71-90 | Any list of trimmed, non-empty, semicolon-free statements survives joining and splitting |
| `SqlSplitter.SplitJoinSplit` | CTA/catalogue/SchemaSqlStatementsReader.cpp:71-90 | Splitting, concatenating the pieces and splitting again gives the same list |

## Left out

- Integer widths: counters and identifiers are unbounded, the 64-bit and 8-bit wrap-around of the source is not modelled, except for the 16-bit field lengths of Oracle's columns.
- Faults: at most one strikes during each use of a connection; MySQL and SQLite are modelled without faults, only with refusals.
- RowByRow: restoring and deleting on MySQL and SQLite are not modelled statement by statement.
- Runs: the steps are undisturbed; what faults leave is stated in Transactions and RestoreFaults. On MySQL and SQLite a deletion is taken by its overall effect, and a restore as on Oracle and PostgreSQL respectively.
- Commit: a commit that fails on a surviving Oracle connection is taken to discard the work, although the pool then commits once more; ClearRestoreEndsWholeExactly depends on it.
- RestoreFaults: the rollback that follows a successful commit in insertTapeFile is not counted as a request.
- Locking: uniqueness of archive file and copy number under interleaving is not claimed, since the lock on a tape row does not protect it; log rows and archive files are not part of a schedule.
- CreateTapeExact: media type, vendor, logical library, tape pool, and the state of a tape with its reason are not modelled, nor are the refusals of a creation because of them.
- Log rows: their surrogate identifier, reason, log time, disk path and reconciliation columns, and the dirty flag of tapes.
- DeleteCopy: only the variant by archive file identifier; the lookup by disk file identifier converts between hexadecimal and decimal first.
- DO_NOT_USE_deleteArchiveFile_DO_NOT_USE: marked as not to be used, adds no new invariant.
- DiskFileOrderIsContiguous: takes a collation in which different disk file identifiers compare different.
- OcciColumn: the flat buffer is a two-dimensional array with one row per field; what an access outside of it does to other memory is not modelled.
- InsertOrdered: a std::set is a sequence in fSeq order; balancing and iterators are not modelled.
- DropTable: DROP TABLE is taken to fail exactly when another existing table refers to the target.
- Checksum blobs: a map from type to value whose validation is equality; serialization and the ADLER32 column are not modelled.
- Schema parsing with regular expressions, statement classification, indexes and sequences: depend on a regex library.
- Caches, command-line parsing, factories, mount policies, drives, disk systems and the other administrative operations: would only add single-row updates.
