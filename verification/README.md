# simple-db-hw core in Dafny

This project models the core of SimpleDB (the `simple-db-hw` teaching
database) and proves properties of the model. It covers:

- **Page locking (`LockManager`).** A page→lock table and a
  transaction→pages table, shared and exclusive page locks, and strict
  two-phase release of all of a transaction's locks.
  - `lock_tables.dfy` (module `LockTables`) states every operation as one step
    of a state machine over the two tables, as values, and proves these
    properties of it:
    - the tables stay consistent;
    - only conflicting requests wait;
    - an exclusive lock has one holder;
    - a release removes exactly one (transaction, page) pair.
  - `lock_manager.dfy` (module `PageLocking`) is the source's object structure:
    a `PageLock` object per page, updated in place, inside a `LockManager`.
    Each method is proved to perform exactly one such step.
- **Aggregation (`IntegerAggregator`, `StringAggregator`).** Both keep an
  aggregate map and a size map keyed by group, updated once per merged tuple.
  - `aggregates.dfy` gives the fold these maps perform. It proves the fold
    against a reference meaning: per group, the list of its values and their
    minimum, maximum, sum or count.
  - `integer_aggregator.dfy` and `string_aggregator.dfy` are the two classes
    and the iterators their `iterator()` returns.
- **Histogram (`IntHistogram`).** The bucket width, the bucket index and
  offset of a value, and `addValue` (`int_histogram.dfy`).
- **Heap file scan (`HeapFile`, `SeqScan`).**
  - `heap_file.dfy` covers the page count of a heap file and the iterator
    that walks the file's tuples page by page through the buffer pool.
  - `seq_scan.dfy` covers the sequential-scan operator: its alias handling,
    its `alias.field` schema and its delegation to the file iterator.
- `common.dfy` holds shared wrappers (`Option`, `Result`, the exceptions),
  Java's truncating division and a few arithmetic facts. `tuples.dfy`
  holds the field and tuple values.

External inputs become parameters:

- The random timeout of `acquireLock` is a parameter `draw`, the value
  `nextInt(MAX_TIME - MIN_TIME)` returned.
- The catalog is a map from table id to the table's name, schema and pages.
- The buffer pool is the list of pages of the file. Each page is the list of
  tuples its page iterator yields. Every request the file iterator makes is
  logged in a ghost `requested` sequence.

Identifiers are compared by value:

- `TransactionId` and `PageId` are plain values compared by equality.
- The source compares transaction ids with `==` at
  `LockManager.java` lines 133 and 145. This is the same thing as long as each
  transaction has one id object.

## Model

| member | source | states |
|---|---|---|
| LockTables.Timeout | src/java/simpledb/LockManager.java:118 | the wait bound of one `acquireLock` call lies in [MIN_TIME, MAX_TIME) = [100, 1000) ms |
| LockTables.RemoveFirst | src/java/simpledb/LockManager.java:171 | `ArrayList.remove(Object)`: the result has the elements of the list minus one occurrence of the removed value, and is the list itself when the value is absent |
| LockTables.RemoveFirstDropsFirst | src/java/simpledb/LockManager.java:171 | the occurrence removed is the first one, and the other elements keep their order |
| LockTables.RemoveFirstNoDup | src/java/simpledb/LockManager.java:179 | removing from a duplicate-free list leaves it duplicate-free, without the value, and with every other element |
| LockTables.EmptyValid | src/java/simpledb/LockManager.java:77-80 | the two empty tables are consistent and nobody holds anything |
| LockTables.ExclusiveIsExclusive | src/java/simpledb/LockManager.java:143-151 | mutual exclusion: an exclusive lock has exactly one holder, and no other transaction holds that page |
| LockTables.PagesWith | src/java/simpledb/LockManager.java:103-114 | `updateTransactionTable`: only `tid`'s list changes; it gains `pid` once, stays duplicate-free, and is `[pid]` for a new transaction |
| LockTables.AddedHolder | src/java/simpledb/LockManager.java:65-73 | `addHolder`: a shared lock gains `tid` once and stays duplicate-free; an exclusive lock is unchanged |
| LockTables.UpgradedLock | src/java/simpledb/LockManager.java:57-63 | `tryUpgradeLock` succeeds exactly when the lock is shared with `tid` its only holder; the holders never change |
| LockTables.AcquireStep | src/java/simpledb/LockManager.java:120-164 | one pass of `acquireLock`'s decision table: an unlocked page, and a read on a shared page, are always granted, and a grant adds at most `pid`'s record; it must wait exactly when the request conflicts (AcquireWaitsIffConflict), and every grant keeps the tables consistent (AcquirePreservesValid) |
| LockTables.AcquireFreshPage | src/java/simpledb/LockManager.java:157-164 | an unlocked page is granted at once: a new record held by `tid` alone, shared iff READ_ONLY, and no other record changes |
| LockTables.AcquireSharedRead | src/java/simpledb/LockManager.java:122-127 | a read on a shared page never waits; afterwards `tid` appears once among the holders and the page once in `tid`'s list, and a repeated request changes nothing |
| LockTables.AcquireUpgrade | src/java/simpledb/LockManager.java:128-137 | a write request by the sole reader turns that record exclusive and changes nothing else |
| LockTables.AcquireReentrant | src/java/simpledb/LockManager.java:143-151 | the exclusive holder asking again, with either permission, is granted with no change |
| LockTables.AcquireWaitsIffConflict | src/java/simpledb/LockManager.java:116-166 | a request waits if and only if it conflicts: it needs exclusivity or meets an exclusive lock, and another transaction holds the page |
| LockTables.AcquireGrants | src/java/simpledb/LockManager.java:116-166 | after a grant `tid` holds the page in both tables; a write grant leaves the record exclusive; every other (transaction, page) pair is unchanged |
| LockTables.AcquirePreservesValid | src/java/simpledb/LockManager.java:116-166 | every grant keeps the tables consistent: records well formed, lists non-empty and duplicate-free, and the two tables agreeing pair by pair |
| LockTables.ReleasedPages | src/java/simpledb/LockManager.java:169-175 | the first half of `releaseLock` removes exactly the pair (`tid`, `pid`) from the transaction table and drops a list that becomes empty |
| LockTables.ReleasedLocks | src/java/simpledb/LockManager.java:177-185 | the second half removes exactly (`pid`, `tid`) from the lock table and drops a record with no holder left |
| LockTables.Released | src/java/simpledb/LockManager.java:168-186 | `releaseLock` on both tables: only `pid`'s record and `tid`'s list may change or disappear, no entry is added, every other record and list is kept; consistency is kept (ReleasePreservesValid) |
| LockTables.ReleasedAll | src/java/simpledb/LockManager.java:188-197 | `releaseLocksOnTransaction`: a transaction without locks changes nothing; no entry is added and every other transaction's list is kept; `tid` ends holding nothing (ReleaseAllClears) |
| LockTables.ReleasePreservesValid | src/java/simpledb/LockManager.java:168-186 | `releaseLock` keeps the tables consistent, `tid` no longer holds `pid`, and every other pair is unchanged |
| LockTables.ReleaseNotHeld | src/java/simpledb/LockManager.java:168-186 | releasing a lock that is not held changes nothing |
| LockTables.ReleaseEachClears | src/java/simpledb/LockManager.java:190-194 | releasing, in order, every page of `tid`'s list removes `tid`'s entry, keeps the tables consistent and leaves every other transaction as it was |
| LockTables.ReleaseAllClears | src/java/simpledb/LockManager.java:188-197 | after `releaseLocksOnTransaction(tid)`, `tid` holds nothing in either table and everyone else holds what they held |
| LockTables.ScenarioSharedThenWriteWaits | src/java/simpledb/LockManager.java:116-166 | two readers share a page; the first reader's write request must then wait |
| LockTables.ScenarioReleaseUnblocks | src/java/simpledb/LockManager.java:116-197 | a writer blocks a reader; once the writer releases all its locks the tables are empty and the reader is granted |
| LockTables.WithoutAssertionsBreaksConsistency | src/java/simpledb/LockManager.java:123-137 | with Java assertions disabled, the shared-read branch lists the reader without adding it as a holder; its later write request is then "granted" while another reader holds the page (see Findings) |
| PageLocking.PageLock.constructor | src/java/simpledb/LockManager.java:26-35 | a new lock is shared exactly when the permission is READ_ONLY, with the given holders |
| PageLocking.PageLock.TryUpgradeLock | src/java/simpledb/LockManager.java:57-63 | the object's new state and answer are `UpgradedLock` of its old state |
| PageLocking.PageLock.AddHolder | src/java/simpledb/LockManager.java:65-73 | the object's new state is `AddedHolder` of its old state; it answers `tid` on a shared lock and `null` on an exclusive one |
| PageLocking.PageLock.RemoveHolder | src/java/simpledb/LockManager.java:179 | the holder list loses its first occurrence of `tid` |
| PageLocking.LockManager.constructor | src/java/simpledb/LockManager.java:77-80 | the manager starts with empty, consistent tables and owns no lock object yet |
| PageLocking.LockManager.HoldsLock | src/java/simpledb/LockManager.java:82-85 | the answer is whether `pid` is in `tid`'s list, and by consistency whether `tid` is among `pid`'s holders |
| PageLocking.LockManager.GetLockList | src/java/simpledb/LockManager.java:199-201 | `tid`'s non-empty list, each page of it held by `tid`, or `null` for a transaction without locks |
| PageLocking.LockManager.UpdateTransactionTable | src/java/simpledb/LockManager.java:103-114 | the transaction table becomes `PagesWith` of the old one |
| PageLocking.LockManager.AcquireLock | src/java/simpledb/LockManager.java:116-166 | keeps the tables consistent; a grantable request updates them as `AcquireStep` says and returns; a request that must wait leaves them unchanged and ends in `TransactionAbortedException` after its timeout; a page that had a lock object keeps that same object, updated in place; every lock object it adds to the table is new |
| PageLocking.LockManager.AcquireHeld | src/java/simpledb/LockManager.java:120-155 | on a page with a lock object: the tables change as `AcquireStep` says, or stay as they were and the call times out, and the page→lock table keeps its objects |
| PageLocking.LockManager.AddLock | src/java/simpledb/LockManager.java:156-164 | on a page without a lock object: a new object held by `tid` alone in the permission's mode, `pid` joins `tid`'s list, and the tables stay consistent |
| PageLocking.LockManager.ReleaseFromTransactionTable | src/java/simpledb/LockManager.java:169-175 | the transaction table becomes `PagesWithout` of the old one |
| PageLocking.LockManager.ReleaseFromLockTable | src/java/simpledb/LockManager.java:177-185 | the records become `LocksWithout` of the old ones; no lock object is added |
| PageLocking.LockManager.ReleaseLock | src/java/simpledb/LockManager.java:168-186 | keeps the tables consistent; they become `Released` of the old tables |
| PageLocking.LockManager.ReleaseLocksOnTransaction | src/java/simpledb/LockManager.java:188-197 | keeps the tables consistent; they become `ReleasedAll` of the old tables, releasing each page of a snapshot of `tid`'s list; no lock object is added |
| PageLocking.SecondReaderJoins | src/java/simpledb/LockManager.java:123-127 | a second read request on a page one reader holds shared is granted and makes it a second holder |
| PageLocking.SecondReaderLeaves | src/java/simpledb/LockManager.java:168-197 | the second reader's release of all its locks leaves the first reader alone on the page |
| PageLocking.ReaderUpgrades | src/java/simpledb/LockManager.java:128-137 | the sole reader's write request upgrades its lock to exclusive |
| PageLocking.ShareBetween | src/java/simpledb/LockManager.java:116-166 | on a manager without locks, two read requests for one page are both granted through new lock objects |
| PageLocking.UpgradeAfterRelease | src/java/simpledb/LockManager.java:116-197 | with two readers on a page, once the second releases all its locks the first one's write request is granted and it holds the page exclusively |
| PageLocking.SharedReadersThenWrite | src/java/simpledb/LockManager.java:77-197 | on one lock manager: two reads granted, the second reader releases all, and the first reader's write is granted |
| Aggregates.GroupKey | src/java/simpledb/IntegerAggregator.java:58-63 | without grouping every tuple goes to the one fixed key; otherwise its key is the field at the group-by index |
| Aggregates.SameGroupIffSameField | src/java/simpledb/IntegerAggregator.java:58-63 | two tuples fall into the same group iff there is no grouping or they agree on the group-by field |
| Aggregates.Merge | src/java/simpledb/IntegerAggregator.java:64-98 | a merged tuple's group grows by one (or starts at size 1), its key joins both maps, and every other group is untouched |
| Aggregates.Fold | src/java/simpledb/IntegerAggregator.java:56-98 | after any sequence of merges both maps have the same keys and every size is positive |
| Aggregates.ReferenceSnoc | src/java/simpledb/IntegerAggregator.java:66-83 | each operator's update of an existing group (min, max, sum, sum for AVG, count) agrees with recomputing the operator over the group's values plus the new one |
| Aggregates.ReferenceSingle | src/java/simpledb/IntegerAggregator.java:84-98 | a new group's first aggregate (the value, or 1 for COUNT) agrees with the operator over that one value |
| Aggregates.FoldMeaning | src/java/simpledb/IntegerAggregator.java:56-98 | the maps hold exactly the groups merged; each group's size is its number of values and its aggregate is the min/max/sum/count of its values |
| Aggregates.Output | src/java/simpledb/IntegerAggregator.java:117-127 | MIN, MAX, SUM and COUNT report the stored aggregate; AVG reports the quotient by the size truncated toward zero: `size * r <= agg < size * r + size` and `r >= 0` for a non-negative sum, mirrored for a negative one |
| Aggregates.ResultTuple | src/java/simpledb/IntegerAggregator.java:128-135 | the output row is `(val)` without grouping and `(group, val)` with it: one or two fields, the value last |
| Aggregates.AverageWithinRange | src/java/simpledb/IntegerAggregator.java:125-126 | the reported AVG, a truncated quotient, lies between the group's least and greatest value |
| Aggregates.SingleGroup | src/java/simpledb/IntegerAggregator.java:59-61 | without grouping there is at most one group, and exactly one once a tuple is merged |
| IntAggregation.IntegerAggregator.constructor | src/java/simpledb/IntegerAggregator.java:34-47 | empty maps; output schema `(INT)` without grouping, `(group type, INT)` with it |
| IntAggregation.IntegerAggregator.MergeTupleIntoGroup | src/java/simpledb/IntegerAggregator.java:56-99 | the maps stay the fold of every (group, value) merged so far, with this tuple's pair appended |
| IntAggregation.IntegerAggregator.Iterator | src/java/simpledb/IntegerAggregator.java:109-111 | a fresh iterator over this aggregator, not yet opened |
| IntAggregation.ReportedValue | src/java/simpledb/IntegerAggregator.java:114-137 | the value reported for a group is the operator over its values, and for AVG their sum divided by their number, truncated and within [min, max] |
| IntAggregation.IntAggregateIterator.Open | src/java/simpledb/IntegerAggregator.java:114-138 | one output tuple per group, each group exactly once in some order, each `(value)` or `(group, value)` with AVG divided by the size; at most one tuple without grouping |
| IntAggregation.IntAggregateIterator.Rewind | src/java/simpledb/IntegerAggregator.java:148-150 | rebuilds the output as `open` does: one tuple per group, at most one without grouping |
| IntAggregation.IntAggregateIterator.HasNext | src/java/simpledb/IntegerAggregator.java:140-142 | true iff an output tuple remains |
| IntAggregation.IntAggregateIterator.Next | src/java/simpledb/IntegerAggregator.java:144-146 | the first remaining tuple, consumed; `NoSuchElementException` and no change when none remains |
| StringAggregation.Counted | src/java/simpledb/StringAggregator.java:50-76 | counting is the shared fold with the COUNT operator and every value 1; it keeps both maps on the same keys |
| StringAggregation.CountedSnoc | src/java/simpledb/StringAggregator.java:50-76 | counting one more tuple is one more `mergeTupleIntoGroup` step on the two maps |
| StringAggregation.CountedMeaning | src/java/simpledb/StringAggregator.java:50-76 | the groups are exactly the keys merged, and each group's count and size both equal its number of occurrences |
| StringAggregation.CountedPositive | src/java/simpledb/StringAggregator.java:50-76 | every group present was merged at least once, so no count is 0 |
| StringAggregation.StringAggregator.constructor | src/java/simpledb/StringAggregator.java:28-44 | for COUNT: empty maps and the output schema by grouping |
| StringAggregation.StringAggregator.Create | src/java/simpledb/StringAggregator.java:28-44 | `IllegalArgumentException` iff the operator is not COUNT; otherwise a valid, empty aggregator |
| StringAggregation.StringAggregator.MergeTupleIntoGroup | src/java/simpledb/StringAggregator.java:50-76 | the maps stay the count of every group merged so far, with this tuple's group appended |
| StringAggregation.StringAggregator.Iterator | src/java/simpledb/StringAggregator.java:86-88 | a fresh iterator over this aggregator, not yet opened |
| StringAggregation.StringAggregateIterator.Open | src/java/simpledb/StringAggregator.java:91-110 | one output tuple per group, each exactly once, carrying the group's number of merged tuples; at most one tuple without grouping |
| StringAggregation.StringAggregateIterator.Rewind | src/java/simpledb/StringAggregator.java:120-122 | rebuilds the output as `open` does: one tuple per group, at most one without grouping |
| StringAggregation.StringAggregateIterator.HasNext | src/java/simpledb/StringAggregator.java:112-114 | true iff an output tuple remains |
| StringAggregation.StringAggregateIterator.Next | src/java/simpledb/StringAggregator.java:116-118 | the first remaining tuple, consumed; `NoSuchElementException` and no change when none remains |
| Histogram.CeilDiv | src/java/simpledb/IntHistogram.java:38 | `ceil(a / b)` is the least `q` with `a <= b * q` |
| Histogram.Width | src/java/simpledb/IntHistogram.java:38 | the width is the ceiling of `(max - min + 1) / buckets`: the least width whose `buckets` buckets cover the range (at least 1 for a non-empty range, WidthCovers) |
| Histogram.WidthCovers | src/java/simpledb/IntHistogram.java:38 | the width is at least 1 and `buckets` buckets cover `[min, max]` with less than one bucket of slack |
| Histogram.BucketIndex | src/java/simpledb/IntHistogram.java:114-121 | the index never exceeds the last bucket and is non-negative from `min` on |
| Histogram.BucketIndexInRange | src/java/simpledb/IntHistogram.java:114-121 | for a value in `[min, max]` the index is `(v - min) / width`, a valid bucket; the clamp never applies |
| Histogram.BucketOffset | src/java/simpledb/IntHistogram.java:123-130 | the offset is below the width, and non-negative for a value from `min` on; BucketOffsetIsRemainder says which remainder it is |
| Histogram.BucketOffsetIsRemainder | src/java/simpledb/IntHistogram.java:123-130 | the offset is `(v - min) mod width`, in `[0, width)` |
| Histogram.IndexAndOffsetLocate | src/java/simpledb/IntHistogram.java:114-130 | index and offset locate the value: `v == min + width * index + offset` |
| Histogram.BucketSumIncrement | src/java/simpledb/IntHistogram.java:51-52 | one more in one bucket is one more in the total |
| Histogram.IntHistogram.constructor | src/java/simpledb/IntHistogram.java:32-43 | one zero counter per bucket index `0 .. buckets - 1`, nothing else; the width as computed; a valid histogram |
| Histogram.IntHistogram.AddValue | src/java/simpledb/IntHistogram.java:49-53 | the value's bucket (a valid index) goes up by one, as does the count; every counter stays the number of added values in its bucket and the count their total |
| HeapFiles.NumPages | src/java/simpledb/HeapFile.java:95-98 | the page count of a file is never negative; NumPagesFit proves it is the number of whole pages |
| HeapFiles.NumPagesFit | src/java/simpledb/HeapFile.java:95-98 | the page count is the number of whole pages: they fit in the file and one more would not |
| HeapFiles.PageWithinFile | src/java/simpledb/HeapFile.java:68-73 | every page below the page count, read from `n * pageSize`, lies wholly inside the file |
| HeapFiles.FirstNonEmpty | src/java/simpledb/HeapFile.java:145-153 | where the scan of `hasNext` stops: the first page with a tuple, every page before it empty |
| HeapFiles.SkipEmpty | src/java/simpledb/HeapFile.java:145-153 | skipping empty pages loses no tuple, and the scan runs off the end iff no tuple remains |
| HeapFiles.FoundAt | src/java/simpledb/HeapFile.java:149-155 | a scan past empty pages stops at the first page with a tuple, and what remains is that page and the pages after it |
| HeapFiles.NoneFrom | src/java/simpledb/HeapFile.java:149-160 | a scan that runs past the last page over empty pages finds no tuple |
| HeapFiles.Requests | src/java/simpledb/HeapFile.java:150-158 | the requests for a page range: one READ_ONLY request per page, in ascending order |
| HeapFiles.HeapFileIterator.constructor | src/java/simpledb/HeapFile.java:121-127 | closed, at page 0, no page iterator; all of the file's tuples remain |
| HeapFiles.HeapFileIterator.Open | src/java/simpledb/HeapFile.java:130-133 | open at page 0; on a new or closed iterator all tuples remain, but an old page iterator is kept, so re-opening a used iterator continues it and then skips page 0 |
| HeapFiles.HeapFileIterator.HasNext | src/java/simpledb/HeapFile.java:136-162 | true iff open and a tuple remains; consumes nothing; leaves the page iterator on the next tuple; requests, read-only and in order, exactly the pages from the scan start to the first non-empty one |
| HeapFiles.HeapFileIterator.ScanPages | src/java/simpledb/HeapFile.java:145-161 | the `while` loop: stops at the first page with a tuple, or past the last page, having requested each page on the way once |
| HeapFiles.HeapFileIterator.FetchPage | src/java/simpledb/HeapFile.java:151-152 | one READ_ONLY buffer-pool request for page `pid`, and a page iterator at that page's first tuple |
| HeapFiles.HeapFileIterator.Next | src/java/simpledb/HeapFile.java:166-171 | succeeds iff open, the last `hasNext` found a tuple and the page iterator has one; then it returns the first remaining tuple and consumes it; otherwise `NoSuchElementException` and no change |
| HeapFiles.HeapFileIterator.NextChecked | src/java/simpledb/HeapFile.java:166-171 | corrected `next`: succeeds iff open and a tuple remains, returning and consuming the first remaining tuple (see Findings) |
| HeapFiles.HeapFileIterator.Close | src/java/simpledb/HeapFile.java:180-186 | closed, page 0, no page or page iterator; all tuples remain for the next `open` |
| HeapFiles.HeapFileIterator.Rewind | src/java/simpledb/HeapFile.java:174-177 | open again at the first tuple of the file |
| HeapFiles.NextRightAfterOpen | src/java/simpledb/HeapFile.java:130-171 | on a one-tuple file, `next` right after `open` throws `NoSuchElementException` though the tuple remains (see Findings) |
| HeapFiles.NextCheckedRightAfterOpen | src/java/simpledb/HeapFile.java:166-171 | the corrected `next` returns that tuple |
| SeqScans.JavaString | src/java/simpledb/SeqScan.java:37-41 | a `null` alias or field name is written `"null"`; any other string is kept; the reference the constructor, `Reset` and `GetTupleDesc` are proved against |
| SeqScans.NewTupleDesc | src/java/simpledb/SeqScan.java:116 | the schema pairs the i-th type with the i-th name |
| SeqScans.SplitQualified | src/java/simpledb/SeqScan.java:113 | splitting a name at its first `.` gives a dot-free prefix and the rest, which rejoin to the name |
| SeqScans.QualifiedSplits | src/java/simpledb/SeqScan.java:113 | a dot-free alias and the field name are recovered from `alias.fieldName` |
| SeqScans.SeqScan.constructor | src/java/simpledb/SeqScan.java:35-45 | alias normalised (`null` → `"null"`); a new iterator over the table's file, as this transaction, in its initial state: closed, at page 0, no page fetched, no page iterator, no request made |
| SeqScans.SeqScan.WithTableName | src/java/simpledb/SeqScan.java:87-90 | as the constructor, with the table's catalog name as the alias and the same initial iterator state |
| SeqScans.SeqScan.Reset | src/java/simpledb/SeqScan.java:77-85 | new table id and normalised alias; the file iterator is left as it was, still on the original table |
| SeqScans.SeqScan.GetTupleDesc | src/java/simpledb/SeqScan.java:107-117 | the table's schema with the same types, every field named `alias.fieldName` |
| SeqScans.SeqScan.Open | src/java/simpledb/SeqScan.java:92-95 | opens the file iterator at page 0, changing nothing else: without a page iterator all of the table's tuples remain; with one, its rest and then the pages after page 0 |
| SeqScans.SeqScan.HasNext | src/java/simpledb/SeqScan.java:119-122 | true iff the file iterator is open and has a tuple left; nothing is consumed and the open flag is unchanged |
| SeqScans.SeqScan.Next | src/java/simpledb/SeqScan.java:124-128 | the next tuple of the file, consumed, or `NoSuchElementException` when the scan is closed or finished; the open flag is unchanged (the corrected file-iterator `next`, see Left out) |
| SeqScans.SeqScan.Close | src/java/simpledb/SeqScan.java:130-133 | closes the file iterator and puts it back in its initial state (page 0, no page iterator), so the next `open` starts over at the first tuple |
| SeqScans.SeqScan.Rewind | src/java/simpledb/SeqScan.java:135-139 | the scan is open again at the first tuple, with no page iterator |
| SeqScans.ScanTwoTuples | src/java/simpledb/SeqScan.java:92-139 | on a table with pages `[t]` and `[u]`: `open`, `next` gives t, `hasNext` is true, `next` gives u, `hasNext` is false, and `close`, `open`, `next` gives t again |

## Findings

| source | as written | input that shows it | evidently intended | confidence | as-written member | corrected member |
|---|---|---|---|---|---|---|
| src/java/simpledb/LockManager.java:126 | the call `addHolder(tid)` sits inside an `assert` statement, so it only runs when the JVM enables assertions (`-ea`); by default only the transaction table is updated | T1 holds a shared lock on page p; T2 asks READ_ONLY on p (listed in T2's pages but not among p's holders), then asks READ_WRITE on p: the upgrade branch is taken, `tryUpgradeLock` fails silently and `acquireLock` returns while T1 still holds the shared lock | add T2 as a holder whatever the JVM flags | not executed | LockTables.WithoutAssertionsBreaksConsistency | LockTables.AcquirePreservesValid |
| src/java/simpledb/HeapFile.java:166-171 | `next()` throws unless the last `hasNext()` set the `hasNext` flag, so it fails right after `open()`, and after a page ends even though later pages hold tuples | a file whose only page holds tuple t; `open()`, then `next()` throws `NoSuchElementException` | `next()` returns the next tuple whenever one remains, as the `DbFileIterator` contract says | not executed | HeapFiles.NextRightAfterOpen | HeapFiles.HeapFileIterator.NextChecked |

The rest of the model uses the corrected behaviour:

- The lock manager always adds the holder.
- `SeqScan.Next` uses `NextChecked` (see Left out).

## Left out

- Threads, `wait`/`notifyAll` and the clock are left out. The model is
  sequential: nothing can change the tables while `acquireLock` waits. So a
  pass that must wait ends in `TransactionAbortedException` after the
  timeout, with the tables unchanged. The deadline test of `block` is not
  modelled.
- `PageLock.setType`, `getType`, `getPageId`, `getTransactionIds` and the
  unused `permissions` field are left out. They are accessors or unused; the
  model reads the fields directly.
- Java `int` overflow is not modelled. The model's integers are unbounded.
  This covers aggregate sums, histogram arithmetic and the
  `pageNumber * pageSize` offset.
- The `Op` values `SUM_COUNT` and `SC_AVG` are left out. The aggregators
  store `null` for them and the output then fails.
- `HashMap` iteration order is not fixed by the model. `open` may list the
  groups in any order; a ghost `order` names the one taken.
- Parts of the aggregator iterators are left out:
  - `getTupleDesc` and `close` do nothing beyond returning the schema.
  - `hasNext` and `next` before `open` throw `NullPointerException`. This is a
    precondition (`it.Some?`) in the model.
- The `mergeTupleIntoGroup` preconditions stand for class-cast or index
  failures in the source:
  - IntAggregation.IntegerAggregator.MergeTupleIntoGroup: requires an
    `IntField` at the aggregate index. Any other field raises a cast failure.
  - StringAggregation.StringAggregator.MergeTupleIntoGroup and
    IntAggregation.IntegerAggregator.MergeTupleIntoGroup: require the
    group-by index to be within the tuple.
- Parts of the histogram are left out:
  - `estimateSelectivity`, `avgSelectivity` and `toString` use floating point.
  - Histogram.IntHistogram.constructor: requires `buckets > 0`. With
    `buckets <= 0` the source's constructor succeeds, since a division of
    doubles by zero does not throw, but it creates no bucket, and every
    later `addValue` fails. With `buckets == 0` the width becomes
    `Integer.MAX_VALUE`, `getBucketIndex` returns `buckets - 1 == -1` (line
    117), `bucket.get` returns `null`, and unboxing it at line 52 throws
    `NullPointerException`. With `buckets < 0` a width of 0 makes the
    division at line 115 throw `ArithmeticException`, and a negative width
    again leads to a negative index and the same `NullPointerException`.
  - Histogram.IntHistogram.AddValue: requires `min <= v <= max`, the range
    the constructor's documentation promises for every value.
- Parts of `HeapFile` are left out:
  - `readPage`'s I/O, `writePage`, `insertTuple`, `deleteTuple`, `getFile`,
    `getId` and `getTupleDesc`.
  - The buffer pool is the list of pages; its own exceptions are not
    modelled.
  - The unused `numPage` field of the iterator.
  - The `(int)` cast in `numPages`.
- SeqScans.SeqScan.Next: models the corrected `next` of the file
  iterator (`HeapFileIterator.NextChecked`), not the one `SeqScan.java:127`
  calls as written. The as-written `next` throws `NoSuchElementException`
  unless the last `hasNext` found a tuple, so a scan's `next` straight
  after `open` throws on a non-empty table (see Findings).
- Parts of `SeqScan` are left out:
  - `getTableName` and `getAlias` are plain reads of the catalog and the
    alias field.
  - A table id missing from the catalog makes the catalog throw. The
    constructors and `GetTupleDesc` require the id to be present.
- `Insert.java` is not part of this model.
