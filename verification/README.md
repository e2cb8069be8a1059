# Inventory application and MariaDB client headers: a verified model

This project models two parts of the repository and proves properties of them
for all inputs, all runs and all reachable states.

**The inventory application.** `Requests` is a state machine of any number of
sessions whose requests are sequences of atomic SQL statements, so that the
statements of different sessions interleave freely. Every write handler inserts
a row into `history_log` and, in a second statement, deletes all but the 15
newest rows. `ORDER BY timestamp DESC LIMIT n` does not say what happens to
equal timestamps, so the query and the trim are relations (`LogTable`). The
store also carries the full history, which no handler reads and nothing trims.
`AuditLog` says what the trimmed log keeps of it, `LiveAssets` how every change
is logged, `HistoryReplay` exactly when the history tells which assets are alive,
and `EditQueue` exactly when a batch edit can get through. `Handlers` has the PHP scripts as imperative
methods on a `Database` and a `Session` object; `UndoDelete` is about the
reinsertion loop.

**The headers.** `Bits` and `Bytes` define C's operators on numbers of any width
and the positional value of byte sequences; `ByteOrderGeneric`, `ByteOrderX86`
and `ByteOrderBig` have the readers and stores, each with the value it decodes
or the bytes it writes as its contract, so that two forms with the same contract
agree everywhere. `IoCache` is the buffered stream, `CStrings` the bounded
string routines, `Uuid` the UUID printer, `Alignment` the alignment and bit-mask
macros.

## Assumptions

- The schema is the one of `www/inventory_db.sql:24-49` and `:1022-1028`: both
  ids are auto-increment primary keys, and a log row gets the current time.
  Timestamps are arbitrary integers; the clock may run backwards.
- The server starts with no sessions and at most 15 log rows (the shipped table has 15).
- Log inserts, trims and the UPDATE succeed once reached. The asset INSERT and
  DELETE may be refused; that is a parameter of the handlers.
- PHP keeps a session locked for a whole request, so a session has at most one
  request under way.
- Ids are integers: posted ids and queue entries are compared as numbers, as
  PHP's loose comparison does for digit strings.
- `_my_b_read`, `_my_b_get`, `_my_b_write`, `my_b_flush_io_cache`, `strnmov`,
  `strncpy`, `strlen` and `_dig_vec_lower` are defined elsewhere. They have
  small bodies here (`CacheRead`, `CacheGet`, `CacheWrite`, `Flush`, `StrNMov`,
  `StrNCpy`, `StrLen`, `Digit`), which choose freely where the real ones may
  differ: how much is kept and loaded by a refill, how much of a large write
  bypasses the buffer, and where the buffer ends after a flush. Attempts to write
  to the file are numbered, and an arbitrary function says which of them succeed.
- x86-64 is little-endian, and `bswapq` reverses the eight bytes of a register.

## What the code does against its documentation

- `safe_strcpy_truncated` is documented to pad the destination with NULs
  (`mariadb/include/mysql/server/m_string.h:278`); the code writes one NUL and
  leaves the rest of the buffer alone, and so does the model. `CStrings.NotPadded`
  has an input, `CStrings.PaddedIff` the exact condition.
- `myisam_sint3korr` is named like a signed reader and never returns a negative
  number; `ByteOrderBig.MyisamSint3korrSign` says for which inputs that matters.
- `MY_ALIGN` returns 0 when the addition wraps around;
  `Alignment.AlignIsLeastIff` has the exact condition.
- An edit is logged even when no asset has the posted id, and a deletion even
  when none of the ids exists; `LiveAssets.EditWritesIff` and
  `LiveAssets.DeletionDeletesIff` say when the table changes, and
  `LiveAssets.LoggedThoughAbsent` has an input.
- A batch edit does not get past a deleted asset; `EditQueue.QueueCanBeEmptiedIff`
  says which queues can be emptied.

## Model

| member | source | states |
|---|---|---|
| AuditLog.DiscardedIsDominated | www/edit_asset.php:34-44 | In every run, over any interleaving of the log inserts and trims of any number of sessions, whatever ties the trims break and whatever the clock does, each entry ever discarded is matched by at least 15 retained entries that are no older |
| AuditLog.LogStaysBounded | www/edit_asset.php:34-44 | In every run the log has at most 15 rows plus one for each request between its insert and its trim |
| AuditLog.TrimsComposeToOne | www/new_entry.php:51-52 | Whenever no trim is outstanding, the log is a result that one single trim of the complete history could have had |
| AuditLog.DashboardSeesFullHistory | www/dashboard.php:167-169 | In every reachable state each answer of the LIMIT 5 query on the trimmed log is a possible answer on the complete history, and the timestamps shown are the same as those of every answer on the complete history |
| AuditLog.HistoryAnswerOnDashboard | www/dashboard.php:167-169 | Conversely, an answer on the complete history is a possible dashboard answer exactly when none of its rows has been discarded |
| AuditLog.DashboardIsExactWithoutTies | www/dashboard.php:167-169 | Without equal timestamps the dashboard shows the very rows, in the very order, of the complete history |
| AuditLog.RunKeepsLogInv | www/delete_selected.php:28-31 | The invariant behind these: unique ids, coverage of every discarded entry, and the size bound survive every step of every run |
| LogTable.TrimKeepsNewest | www/edit_asset.php:37-44 | The nested DELETE ... NOT IN query keeps a set of newest rows, and any set of newest rows is one it may keep |
| LogTable.CoversAfterTrim | www/edit_asset.php:37-44 | A trim of a log that covers the history leaves a log that covers the history |
| LogTable.AnswerTransfers | www/dashboard.php:167 | A query for at most as many rows as the trim keeps cannot tell a covering log from the history |
| LogTable.SameTimes | www/dashboard.php:167 | Two answers of the same query may differ in rows, never in the timestamps they list |
| LogTable.AnswerExists | www/dashboard.php:167 | The ordered LIMIT query has an answer on every table |
| LiveAssets.EveryChangeIsLoggedOnce | www/new_entry.php:47-51 | Over any interleaving the live ids are the initial ones with the asset statements replayed over them, and each statement has been logged exactly once or belongs to a request about to log it |
| HistoryReplay.HistoryTellsLiveAssetsIff | www/new_entry.php:47-51 | For every run, however the requests interleave: when nothing waits to be logged, replaying the full history gives the live ids exactly when, for each asset added in the run, the history has a deletion of it after its addition just when one was executed after it |
| HistoryReplay.CalmHistoryTellsLiveAssets | www/delete_selected.php:17-28 | That order is kept, and the history gives the live ids, if no request adds or deletes an asset whose deletion or creation another request has not logged yet |
| HistoryReplay.SerialHistoryTellsLiveAssets | www/delete_selected.php:17-28 | In particular when requests execute one after another |
| HistoryReplay.HistoryCanMislead | www/new_entry.php:47-51 | A run in which it is not: two overlapping requests leave asset 1 deleted and a history that says deleted, then added |
| LiveAssets.NothingToUndo | www/undo_delete.php:5-8 | In every run undo finds no records, because no handler ever sets deleted_records |
| LiveAssets.DeletedForGood | www/inventory_db.sql:26 | An id that has been given out and deleted never comes back, in any run |
| LiveAssets.EditWritesIff | www/edit_asset.php:19-44 | An edit always adds its history entry; the posted row is in the table afterwards exactly when the id existed, every other row is as it was, and the table changes exactly when that id had a different row |
| LiveAssets.DeletionDeletesIff | www/delete_selected.php:17-28 | A deletion always adds its history entry; the ids afterwards are the old ones without the listed ones, every surviving row is as it was, and the table changes exactly when one of the ids exists |
| LiveAssets.LoggedThoughAbsent | www/edit_asset.php:19-44 | In a database without assets, an edit and a deletion of asset 7 each leave a log entry and nothing else |
| EditQueue.FormRunsConsumeQueue | www/edit_asset.php:48-53 | Over any interleaving, with forms that may be out of date, the ids a session submitted from the forms it has seen, followed by what is still queued, are the queue it started with |
| EditQueue.AsManySubmissionsAsIds | www/edit_asset.php:48-57 | Submitting the head's form as often as the queue is long edits exactly the queued ids, in order, and empties the queue |
| EditQueue.QueueCanBeEmptiedIff | www/edit_asset.php:48-76 | A session that submits only forms it has seen can empty its queue, in some run of all sessions, exactly when every queued id is that of an existing asset or of one yet to be added, and is not 0, except for ids whose form was seen before |
| EditQueue.QueueCanBeEmptied | www/edit_asset.php:16-57 | When every queued asset can be shown now, three statements and one form for each id empty the queue, and the assets are the old ones with the forms filled in one after the other |
| EditQueue.FilledRows | www/edit_asset.php:16-29 | Filled in that way, every queued asset that exists has the row of its last submission and every other row is as it was |
| EditQueue.SubmittedCouldBeShown | www/edit_asset.php:48-76 | Whatever all sessions do, an id submitted from a seen form was at the start of the run an existing asset or one yet to be added, unless its form was seen before |
| EditQueue.MissingHeadBlocks | www/edit_asset.php:56-76 | While the head id does not exist, neither a reload nor a manual id changes the queue, the chosen id or the page |
| EditQueue.StuckForGood | www/edit_asset.php:48-63 | A queue whose head has been deleted stays stuck whatever all sessions do, until its own session loads another queue or submits that id |
| EditQueue.RemoveFirstCounts | www/edit_asset.php:49-51 | Search, unset and reindex remove one occurrence and nothing else |
| EditQueue.RemoveFirstRemovesFirst | www/edit_asset.php:49-51 | It is the first occurrence that goes, and everything before and behind it keeps its order |
| EditQueue.ResubmissionKeepsQueue | www/edit_asset.php:48-57 | Replaying an update POST leaves the queue as after the first submission exactly when the id was queued at most once |
| EditQueue.Resubmission | www/edit_asset.php:16-57 | The same with the database: only timestamps differ, and the history has one more entry |
| Handlers.EditAsset | www/edit_asset.php:12-76 | The whole request. A posted selection becomes the queue, null included; a submitted id leaves it. The page is the form with the row of the queue's head, or of the manual id if there is no head, or says that the asset is missing or none is selected. An update leaves in the row, if it exists, the posted columns, the address by the trimming rule and the new time; no other row changes; one log entry is added even if the id does not exist, and the log is its 15 newest rows |
| Handlers.DeleteSelected | www/delete_selected.php:10-42 | The listed rows are gone, every other row is as it was, and one log entry is added; invalid input or a refused statement changes nothing |
| Handlers.NewEntry | www/new_entry.php:11-59 | Adds one row with the next id, the posted columns, none of them empty, the address or n/a and the current time, leaves every other row as it was and logs that id, exactly when no required field is absent, empty or 0 and the database accepts; otherwise nothing changes, and the fields reported missing are the empty ones in form order |
| Handlers.FindMissing | www/new_entry.php:19-24 | The loop lists what stands at the places of the empty fields, all of them, in ascending order, each once |
| Handlers.EmptyFieldsInOrder | www/new_entry.php:19-24 | The specification of that loop has this property for every list of fields and every form |
| Handlers.Undo | www/undo_delete.php:5-30 | Inserts records up to the first refused one; clears the session exactly when all went in, and keeps the list otherwise |
| Handlers.UninterruptedHandlerIsARun | www/edit_asset.php:28-53 | A write handler that nobody interrupts is a run of three steps of the state machine with the same store and queue |
| Handlers.UninterruptedEditIsARun | www/edit_asset.php:12-54 | A whole uninterrupted request to edit_asset.php is a run: one step that loads the queue if a selection was posted, then the three steps of the edit if a form was |
| Handlers.StoredRows | www/edit_asset.php:17-27 | Both handlers store exactly the posted required columns, each under its own name. A new entry stores the posted address unless it is absent, empty or 0, an edit unless it is absent, all blanks, or a 0 among blanks; n/a otherwise. So they store the same row exactly when the address is empty or does not trim to nothing or 0 |
| Handlers.StrippedOf | www/edit_asset.php:17 | Trimming takes blanks off both ends, all of them, and nothing else |
| Handlers.EmptyAfterTrimmingIff | www/edit_asset.php:17 | The trimmed address counts as empty exactly when the address is all blanks or a single 0 among blanks |
| Handlers.SelectNewest | www/dashboard.php:167 | An implementation of the ordered LIMIT query with free choice among ties |
| Handlers.Database.TrimLog | www/delete_selected.php:31 | The trim as a state change: the log becomes a possible result of the nested query, nothing else changes |
| Handlers.Database.Restore | www/undo_delete.php:16-22 | The primary key refuses a taken id and changes nothing; otherwise the row goes in |
| UndoDelete.FirstRecordsAreIn | www/undo_delete.php:13-23 | Exactly the first k records are in, under ids that were free and with their own values, no other row is touched, and the next record is refused |
| UndoDelete.AllAcceptedIff | www/undo_delete.php:13-30 | Undo succeeds exactly when the records have distinct ids and none of them is taken |
| UndoDelete.RetryChangesNothing | www/undo_delete.php:13-30 | After a failed undo, every retry that still finds the rows accepts no record and changes nothing |
| ByteOrderX86.MiUint5korr | mariadb/include/mysql/server/byte_order_generic_x86_64.h:90-97 | Equals the big-endian value of the first five bytes, for every buffer |
| ByteOrderX86.MiUint6korr | mariadb/include/mysql/server/byte_order_generic_x86_64.h:99-106 | The same for six bytes |
| ByteOrderX86.MiUint7korr | mariadb/include/mysql/server/byte_order_generic_x86_64.h:108-116 | The same for seven bytes |
| ByteOrderX86.MiUint8korr | mariadb/include/mysql/server/byte_order_generic_x86_64.h:118-123 | The same for eight bytes |
| ByteOrderX86.SwapReadsBackwards | mariadb/include/mysql/server/byte_order_generic_x86_64.h:94-95 | Shifting n loaded bytes to the top and swapping gives their big-endian value |
| ByteOrderBig.MiUint5korr | mariadb/include/mysql/mariadb_rpl.h:594-599 | The shift-and-or macro is the big-endian value of five bytes |
| ByteOrderBig.FastMiUint5korrAgrees | mariadb/include/mysql/server/byte_order_generic_x86_64.h:90-97 | The two definitions of mi_uint5korr agree on every buffer |
| ByteOrderBig.FastReadersKeepKeyOrder | mariadb/include/mysql/server/byte_order_generic_x86_64.h:88-123 | Byte-wise comparison of stored keys is the numeric order of what the 5 to 8 byte readers return |
| Bytes.ByteOrderIsNumericOrder | mariadb/include/mysql/mariadb_rpl.h:570-599 | High-byte-first storage is order preserving, in both directions, for any width |
| ByteOrderBig.MyisamUint1korr | mariadb/include/mysql/mariadb_rpl.h:570 | Big-endian value of one byte |
| ByteOrderBig.MyisamUint2korr | mariadb/include/mysql/mariadb_rpl.h:572-573 | Big-endian value of two bytes |
| ByteOrderBig.MyisamUint3korr | mariadb/include/mysql/mariadb_rpl.h:576-579 | Big-endian value of three bytes |
| ByteOrderBig.MyisamUint4korr | mariadb/include/mysql/mariadb_rpl.h:584-588 | Big-endian value of four bytes |
| ByteOrderBig.MyisamSint1korr | mariadb/include/mysql/mariadb_rpl.h:571 | Two's complement of one byte |
| ByteOrderBig.MyisamSint2korr | mariadb/include/mysql/mariadb_rpl.h:574-575 | Two's complement of two bytes |
| ByteOrderBig.MyisamSint3korr | mariadb/include/mysql/mariadb_rpl.h:580-583 | The unsigned big-endian value: the sign of three bytes is not extended |
| ByteOrderBig.MyisamSint3korrSign | mariadb/include/mysql/mariadb_rpl.h:580-583 | It is the three-byte two's complement number exactly when the first byte is below 128 |
| ByteOrderBig.MyisamSint4korr | mariadb/include/mysql/mariadb_rpl.h:589-593 | Two's complement of four bytes |
| ByteOrderGeneric.Uint2korr | mariadb/include/mysql/server/byte_order_generic.h:36-37 | Little-endian value of two bytes |
| ByteOrderGeneric.Uint3korr | mariadb/include/mysql/server/byte_order_generic.h:38-40 | Little-endian value of three bytes |
| ByteOrderGeneric.Uint4korr | mariadb/include/mysql/server/byte_order_generic.h:41-44 | Little-endian value of four bytes |
| ByteOrderGeneric.Uint5korr | mariadb/include/mysql/server/byte_order_generic.h:45-49 | Little-endian value of five bytes |
| ByteOrderGeneric.Uint6korr | mariadb/include/mysql/server/byte_order_generic.h:50-55 | Little-endian value of six bytes |
| ByteOrderGeneric.Uint8korr | mariadb/include/mysql/server/byte_order_generic.h:56-64 | Little-endian value of eight bytes |
| ByteOrderGeneric.Sint2korr | mariadb/include/mysql/server/byte_order_generic.h:21-22 | Two's complement of two bytes |
| ByteOrderGeneric.Sint3korr | mariadb/include/mysql/server/byte_order_generic.h:23-30 | Two's complement of three bytes, by the hand-written sign extension |
| ByteOrderGeneric.Sint4korr | mariadb/include/mysql/server/byte_order_generic.h:31-34 | Two's complement of four bytes |
| ByteOrderGeneric.Sint8korr | mariadb/include/mysql/server/byte_order_generic.h:35 | Two's complement of eight bytes |
| ByteOrderGeneric.Int2store | mariadb/include/mysql/server/byte_order_generic.h:65-68 | Writes the two low bytes, and no other byte of the buffer changes |
| ByteOrderGeneric.Int3store | mariadb/include/mysql/server/byte_order_generic.h:69-73 | The same for three bytes |
| ByteOrderGeneric.Int4store | mariadb/include/mysql/server/byte_order_generic.h:74-78 | The same for four bytes |
| ByteOrderGeneric.Int5store | mariadb/include/mysql/server/byte_order_generic.h:79-84 | The same for five bytes |
| ByteOrderGeneric.Int6store | mariadb/include/mysql/server/byte_order_generic.h:85-91 | The same for six bytes |
| ByteOrderGeneric.Int8store | mariadb/include/mysql/server/byte_order_generic.h:92-96 | The same for eight bytes, as two four-byte stores |
| ByteOrderX86.Uint2korr | mariadb/include/mysql/server/byte_order_generic_x86_64.h:31 | The wide load gives the same little-endian value as the portable form |
| ByteOrderX86.Uint3korr | mariadb/include/mysql/server/byte_order_generic_x86_64.h:32-34 | The same for three bytes |
| ByteOrderX86.Uint4korr | mariadb/include/mysql/server/byte_order_generic_x86_64.h:35 | The same for four bytes |
| ByteOrderX86.Uint5korr | mariadb/include/mysql/server/byte_order_generic_x86_64.h:38-43 | The same for a four-byte and a one-byte load |
| ByteOrderX86.Uint6korr | mariadb/include/mysql/server/byte_order_generic_x86_64.h:44-49 | The same for a four-byte and a two-byte load |
| ByteOrderX86.Uint8korr | mariadb/include/mysql/server/byte_order_generic_x86_64.h:51 | The same for eight bytes |
| ByteOrderX86.Sint2korr | mariadb/include/mysql/server/byte_order_generic_x86_64.h:21 | Agrees with the portable sign-converting reader on every buffer |
| ByteOrderX86.Sint3korr | mariadb/include/mysql/server/byte_order_generic_x86_64.h:22-29 | Two's complement of three bytes |
| ByteOrderX86.Sint4korr | mariadb/include/mysql/server/byte_order_generic_x86_64.h:30 | Agrees with the portable sign-converting reader on every buffer |
| ByteOrderX86.Sint8korr | mariadb/include/mysql/server/byte_order_generic_x86_64.h:52 | Agrees with the portable sign-converting reader on every buffer |
| ByteOrderX86.FormsAgree | mariadb/include/mysql/server/byte_order_generic_x86_64.h:21-52 | The x86-64 readers return what the portable ones return, at every width, signed and unsigned |
| ByteOrderX86.Int2store | mariadb/include/mysql/server/byte_order_generic_x86_64.h:54-56 | The wide store writes the same bytes as the portable form, and no others |
| ByteOrderX86.Int3store | mariadb/include/mysql/server/byte_order_generic_x86_64.h:58-61 | The same for three bytes |
| ByteOrderX86.Int4store | mariadb/include/mysql/server/byte_order_generic_x86_64.h:63-65 | The same for four bytes |
| ByteOrderX86.Int5store | mariadb/include/mysql/server/byte_order_generic_x86_64.h:67-70 | The same for a four-byte and a one-byte store |
| ByteOrderX86.Int6store | mariadb/include/mysql/server/byte_order_generic_x86_64.h:72-75 | The same for a four-byte and a two-byte store |
| ByteOrderX86.Int8store | mariadb/include/mysql/server/byte_order_generic_x86_64.h:77-79 | The same for eight bytes |
| ByteOrderBig.LittleEndianRoundTrip | mariadb/include/mysql/server/byte_order_generic.h:65-96 | For any width, what is read behind a store is the value modulo 2^(8n), and a signed value in range comes back unchanged |
| ByteOrderBig.Sint3RoundTrip | mariadb/include/mysql/server/byte_order_generic.h:23-30 | sint3korr after int3store returns every number from -2^23 to 2^23 - 1, in both forms |
| ByteOrderBig.Int4net | mariadb/include/mysql/server/my_byteorder.h:24-27 | Two's complement of four bytes in network order |
| ByteOrderBig.NetworkRoundTrip | mariadb/include/mysql/server/my_byteorder.h:24-27 | int4net after longstore returns every 32-bit value |
| ByteOrderBig.NetworkIsReversedNative | mariadb/include/mysql/server/my_byteorder.h:24-27 | int4net of four bytes is sint4korr of them reversed, in both forms |
| ByteOrderBig.Ushortget | mariadb/include/mysql/server/big_endian.h:51-52 | Big-endian value of two bytes |
| ByteOrderBig.Shortget | mariadb/include/mysql/server/big_endian.h:53-54 | Two's complement of two bytes, high byte first |
| ByteOrderBig.Shortstore | mariadb/include/mysql/server/big_endian.h:67-69 | Writes the two low bytes, high byte first, and no other byte changes |
| ByteOrderBig.Longstore | mariadb/include/mysql/server/big_endian.h:70-73 | The same for four bytes |
| ByteOrderBig.ShortRoundTrip | mariadb/include/mysql/server/big_endian.h:53-69 | shortget after shortstore returns every signed 16-bit value |
| ByteOrderBig.UshortRoundTrip | mariadb/include/mysql/server/big_endian.h:51-69 | ushortget after shortstore returns every unsigned 16-bit value |
| IoCache.Cache.MyBRead | mariadb/include/mysql/server/my_sys.h:507-516 | Delivers the next bytes of the stream, as many as there are, and says whether that was all; the position advances by exactly that many; on the fast path tell plus bytes in cache is constant |
| IoCache.Cache.MyBGet | mariadb/include/mysql/server/my_sys.h:533-541 | Delivers the next byte, or EOF exactly at the end |
| IoCache.Cache.MyBFill | mariadb/include/mysql/server/my_sys.h:563-567 | Skips what is left in the buffer, so that no byte is lost exactly when nothing was left; returns 0 exactly at the end of the stream |
| IoCache.Cache.AnyReads | mariadb/include/mysql/server/my_sys.h:507-541 | Any sequence of my_b_get and my_b_read calls of any sizes: delivered bytes followed by pending bytes are the original stream, my_b_tell advances by the bytes delivered, and those are as many as all the calls together ask for, or all there are |
| IoCache.Cache.MyBWrite | mariadb/include/mysql/server/my_sys.h:518-531 | Appends the block to what has been written, or a prefix of it on failure. It fails exactly when an attempt to write to the file fails, makes at most two, and none exactly when the block fits in the bytes left in the cache; then the file is untouched and tell plus bytes in cache is constant |
| IoCache.Cache.MyBWriteByte | mariadb/include/mysql/server/my_sys.h:543-551 | Appends one byte, or nothing on failure. It fails exactly when the flush does, which it attempts exactly when no byte is left in the cache; otherwise the file is untouched and tell plus bytes in cache is constant |
| IoCache.Cache.AnyWrites | mariadb/include/mysql/server/my_sys.h:518-551 | Any mix of block and byte writes: flushed bytes followed by buffered bytes are the concatenation of everything written, or a prefix of it after a failure. All calls succeed exactly when every attempt to write to the file does, and there is no attempt exactly when everything fits in the bytes left in the cache |
| IoCache.Cache.WriteBytewise | mariadb/include/mysql/server/my_sys.h:518-551 | Writing byte by byte meets the contract of one block write: the whole block, or a prefix on failure, failing exactly when an attempt fails, and making none exactly when the block fits |
| IoCache.Cache.TellCountsWrittenBytes | mariadb/include/mysql/server/my_sys.h:569-581 | my_b_write_tell is the number of bytes written, and my_b_tell equals it exactly when request_pos is write_buffer |
| CStrings.SafeStrcpy | mariadb/include/mysql/server/m_string.h:249-273 | Leaves the longest prefix of the source that fits, padded with NULs to dst_size, and touches nothing behind |
| CStrings.SafeStrcpyTruncated | mariadb/include/mysql/server/m_string.h:285-304 | Leaves the longest prefix that fits and one NUL, returns 1 exactly when the source did not fit, touches nothing else; a size of 0 returns 1 |
| CStrings.SafeStrcat | mariadb/include/mysql/server/m_string.h:313-319 | Appends as much as fits, stays terminated inside dst_size, returns 1 exactly when the source did not fit; a string already longer than dst_size is left alone |
| CStrings.AppendInTurn | mariadb/include/mysql/server/m_string.h:306-319 | Any sequence of safe_strcat calls into an empty string: the buffer is terminated inside dst_size and has the first dst_size - 1 bytes of the concatenation, each call returned 1 exactly when the buffer so far and its source did not fit, the result is the whole concatenation exactly when all calls returned 0, and nothing behind is touched |
| CStrings.AppendingKeepsPrefix | mariadb/include/mysql/server/m_string.h:313-319 | The same about the values: bounded appending keeps the prefix of the concatenation |
| CStrings.CompleteIffNothingReported | mariadb/include/mysql/server/m_string.h:306-319 | The same about the values: nothing is lost exactly when no call reports truncation |
| CStrings.CopiesAgree | mariadb/include/mysql/server/m_string.h:249-304 | safe_strcpy and safe_strcpy_truncated leave equal C strings |
| CStrings.PaddedIff | mariadb/include/mysql/server/m_string.h:275-304 | They leave equal buffers, that is, the documented padding is there, exactly when the bytes behind the terminator were NUL before |
| CStrings.NotPadded | mariadb/include/mysql/server/m_string.h:275-304 | Copying the empty string over abc leaves bc behind the NUL |
| Uuid.MyUuid2str | mariadb/include/mysql/server/my_sys.h:1041-1052 | Writes exactly 32 or 36 characters, the text of the UUID, and touches nothing else |
| Uuid.DashPositions | mariadb/include/mysql/server/my_sys.h:1044-1050 | Dashes stand exactly at positions 8, 13, 18 and 23 (the 8-4-4-4-12 form of section 3 of RFC 4122), and only with separators |
| Uuid.ParseRecovers | mariadb/include/mysql/server/my_sys.h:1041-1052 | A parser that drops the dashes recovers all bytes, with and without separators |
| Uuid.PrintingIsInjective | mariadb/include/mysql/server/my_sys.h:1041-1052 | Two UUIDs that print alike are equal |
| Alignment.AlignIsLeastIff | mariadb/include/mysql/server/my_global.h:828 | MY_ALIGN is the least multiple not below A exactly when A + L - 1 does not overflow; if it does, the result is 0 |
| Alignment.AlignIsLeast | mariadb/include/mysql/server/my_global.h:828-829 | Without overflow MY_ALIGN(A, L) is MY_ALIGN_DOWN(A + L - 1, L) |
| Alignment.AlignDownIsGreatest | mariadb/include/mysql/server/my_global.h:829 | MY_ALIGN_DOWN is the greatest multiple not above A |
| Alignment.AlignmentIsIdempotent | mariadb/include/mysql/server/my_global.h:828-829 | Both are idempotent, and their fixed points are the multiples, for every A, even where the sum overflows |
| Alignment.SetBitsSetsLowBits | mariadb/include/mysql/server/my_global.h:478 | set_bits is 2^n - 1, all ones when n reaches the type width; bit i is set exactly when i is below both |
| Alignment.TestAllBitsIff | mariadb/include/mysql/server/my_global.h:479 | test_all_bits holds exactly when every bit of b is set in a |

## Left out

- User interface, login and logout, configuration and setup, SQL text building
  and quoting; user names are plain data.
- `www/add_asset.php`, which inserts columns the schema does not have.
- Lists that decode from JSON to something other than an array of numbers.
- Column widths, date parsing and statements that fail for such reasons;
  `mysqli` exceptions, requests that die between two statements, and the end of
  the integer range of the id columns.
- I/O errors while reading; the caches of type SEQ_READ_APPEND, READ_NET and
  READ_FIFO, shared and encrypted caches, and the mutexes.
- Source and destination of the string routines and of `my_b_write` never
  overlap: the source is a value, so aliasing is not modelled. The same holds
  for the byte-order readers, which are functions of the bytes they are given.
- Pointer wrap-around in the IO_CACHE comparisons: positions are unbounded.
- Plain `char` buffers in the byte-order macros: buffers hold unsigned bytes.
- Floating-point stores and loads, alignment faults, `longget`, `ulongget` and
  the `memcpy` forms; JSON, decimals, the key cache, replication parsing and the
  other headers, of which only declarations are shown.
