# SimpleDB heap file and aggregators in Dafny

This project models three parts of the SimpleDB teaching database and proves
properties of them:

- **`HeapFile`** stores a table as a file of fixed-size pages. The model
  covers numPages, the range checks of readPage and writePage, first-fit
  insertTuple (growing the file by one page when every page is full),
  deleteTuple, and the `HeapFileIterator` scan cursor.
- **`IntegerAggregator`** is a group-by MIN, MAX, SUM, COUNT and AVG over an
  integer field.
- **`StringAggregator`** is a group-by COUNT over a string field.

Files and modules:

| file | module | contents |
|---|---|---|
| `java_int.dfy` | `JavaInt` | Java `int` arithmetic: 32-bit wrap-around (`Wrap`) and division that truncates toward zero (`TruncDiv`) |
| `types.dfy` | `Types` | fields, tuples, page and record ids, the exceptions thrown (`Result`) |
| `heap_page.dfy` | `PageContract` | what `HeapFile` relies on from `HeapPage`: a page is a sequence of slots, each empty or holding a row |
| `heap_file.dfy` | `Storage` | class `HeapFile` (a byte length plus the content of each whole page), class `HeapFileIterator` (the fields `it` and `whichPage`), the table's contents and scan order as functions, and the two findings |
| `aggregates.dfy` | `Aggregation` | the operators, the group key, the output schema and tuples, and reference definitions of each aggregate over the values merged under a key |
| `integer_aggregator.dfy` | `IntegerAggregation` | class `IntegerAggregator` with `groupMap` and `avgMap`, and the summing loop of AVG |
| `string_aggregator.dfy` | `StringAggregation` | class `StringAggregator` with `groupMap` |

Main invariants:

- **Scan cursor.** The cursor's ghost `Remaining()` is the sequence of
  tuples it has yet to return:
  - `open` and `rewind` set it to the whole scan `ScanFrom(id, pages, 0)`.
  - `hasNext` never changes it, and answers whether it is non-empty.
  - `next` removes its head.
  - A scan yields each stored row exactly as often as the file holds it
    (`ScanRows`), with record ids in strictly increasing (page, slot) order
    (`ScanRecordIds`).
- **Aggregators.** Each aggregator keeps a ghost record of the values merged
  under each key (`merged`, or `counts` for the string aggregator). Its
  `Valid()` ties every map entry to a reference definition of the aggregate:
  - SeqMin and SeqMax for MIN and MAX.
  - The exact sum wrapped to `int` for SUM.
  - The count wrapped to `int` for COUNT.
  - The wrapped sum divided, truncating toward zero, for AVG.

  `iterator()` is proved to emit, for each key, exactly that aggregate.

Where the code and its documentation differ, the model follows the code:

- The `StringAggregator` constructor documents an `IllegalArgumentException`
  for operators other than COUNT. It throws nothing; the first
  `mergeTupleIntoGroup` throws instead.
- The class comment (HeapFile.java:14-16) calls the file "simply a
  collection of those pages", which suggests a length that is a whole number
  of pages. The code does not enforce this, so the model allows any length
  (see the second finding).
- In `deleteTuple`, the `heapPage == null` check comes after the page is
  used, so it never fires. A failing delete surfaces as the page's own
  `DbException`.

## Model

| member | source | states |
|---|---|---|
| `JavaInt.Wrap` | src/java/simpledb/execution/IntegerAggregator.java:76 | the `int` a Java addition yields is the one value in [-2^31, 2^31) congruent to the exact result modulo 2^32, and the exact result itself when it fits |
| `JavaInt.WrapAdd` | src/java/simpledb/execution/IntegerAggregator.java:113-115 | wrapping after every addition gives the same `int` as wrapping the exact total once |
| `JavaInt.TruncDiv` | src/java/simpledb/execution/IntegerAggregator.java:116 | Java `int` division by a positive divisor: the remainder has the sign of the dividend and is smaller than the divisor in magnitude, and a quotient of an `int` is an `int` |
| `PageContract.EmptySlots` | src/java/simpledb/storage/HeapFile.java:148 | a freshly created page has the requested number of slots, all of them empty, and holds no rows |
| `PageContract.FullIffNoEmptySlot` | src/java/simpledb/storage/HeapFile.java:141 | `getNumEmptySlots() == 0` exactly when every slot is occupied |
| `PageContract.PageInsert` | src/java/simpledb/storage/HeapFile.java:142 | HeapPage.insertTuple fails exactly on a full page; otherwise one empty slot now holds the row, no other slot changes, the page gains exactly that row and one fewer empty slot |
| `PageContract.PageDelete` | src/java/simpledb/storage/HeapFile.java:166 | HeapPage.deleteTuple succeeds exactly when the record id's slot exists and holds this row; that slot becomes empty, no other slot changes, and exactly one copy of the row leaves the page |
| `PageContract.PageTuples` | src/java/simpledb/storage/HeapFile.java:210 | the page iterator yields one tuple per occupied slot, each carrying that slot's row and a record id of this page and that slot, in strictly ascending slot order |
| `PageContract.PageTuplesRows` | src/java/simpledb/storage/HeapFile.java:210 | the page iterator yields every row on the page exactly as often as the page stores it |
| `PageContract.NumEmptySlots` | src/java/simpledb/storage/HeapFile.java:141 | a page never has more empty slots than slots |
| `Storage.PageOffset` | src/java/simpledb/storage/HeapFile.java:89 | readPage's `long` offset of a page is a multiple of the page size, and it is negative exactly for negative page numbers |
| `Storage.BytesRead` | src/java/simpledb/storage/HeapFile.java:91-92 | `read` returns -1 exactly at or past the end of the file; otherwise between 1 and a page's worth of bytes, all inside the file, and a full page exactly when a whole page lies before the end |
| `Storage.WriteOffsetAsWritten` | src/java/simpledb/storage/HeapFile.java:119 | writePage's `int` offset is congruent to the true offset modulo 2^32, and equal to it whenever the true offset fits an `int` |
| `Storage.ScanStep` | src/java/simpledb/storage/HeapFile.java:225-231 | a scan from an existing page is that page's tuples followed by the scan from the next page, and the page contributes a tuple exactly when it holds one |
| `Storage.PageCount` | src/java/simpledb/storage/HeapFile.java:128-131 | the page count is the largest number of whole pages that fit in the file's length, so a trailing partial page is not counted |
| `Storage.FirstNonFull` | src/java/simpledb/storage/HeapFile.java:138-141 | the page first-fit picks: every earlier page is full, and the chosen one, if any, has an empty slot |
| `Storage.InsertAddsRow` | src/java/simpledb/storage/HeapFile.java:138-145 | inserting into a page with an empty slot adds exactly the inserted row to the table's contents |
| `Storage.AppendAddsRow` | src/java/simpledb/storage/HeapFile.java:147-156 | appending an empty page and inserting into it adds exactly the inserted row to the table's contents |
| `Storage.DeleteRemovesRow` | src/java/simpledb/storage/HeapFile.java:164-169 | a successful page delete removes exactly one copy of the row from the table's contents, and the row was there |
| `Storage.ScanRecordIds` | src/java/simpledb/storage/HeapFile.java:220-253 | every tuple a scan from a page onwards yields has a record id of this table on one of those pages, and the record ids strictly increase in (page, slot) order |
| `Storage.ScanRows` | src/java/simpledb/storage/HeapFile.java:220-253 | a scan from a page onwards yields exactly the rows stored on those pages, with multiplicity |
| `Storage.NextPageWithTuples` | src/java/simpledb/storage/HeapFile.java:224-234 | where hasNext stops: never before where it started and never past the last page; every page it skips has no tuples; it stops either on a page with tuples or on the last page |
| `Storage.SkippedPagesYieldNothing` | src/java/simpledb/storage/HeapFile.java:225-231 | the pages hasNext skips contribute nothing to what the scan yields |
| `Storage.WriteOffsetAsWrittenWraps` | src/java/simpledb/storage/HeapFile.java:119 | the `int` product `pageNumber * pageSize` is the true offset exactly for pages below 2^19; page 2^19 gets a negative offset, and pages 2^20 and -2^20 get page 0's offset |
| `Storage.PageOffsetsDisjoint` | src/java/simpledb/storage/HeapFile.java:89 | with the offset computed as a `long`, distinct pages occupy disjoint byte ranges |
| `Storage.AppendAsWrittenMisplaced` | src/java/simpledb/storage/HeapFile.java:147-152 | appending an empty page at the end of the file puts it where page numPages()-1 of the grown file is read exactly when the old length was a whole number of pages |
| `Storage.AppendAsPageReadsBack` | src/java/simpledb/storage/HeapFile.java:147-152 | writing the new page as page number numPages() makes it page numPages()-1 of the grown file for every file length |
| `Storage.HeapFile.constructor` | src/java/simpledb/storage/HeapFile.java:36-40 | a heap file is built over an existing backing file, whose whole pages are its pages, and starts out consistent |
| `Storage.HeapFile.NumPages` | src/java/simpledb/storage/HeapFile.java:128-131 | numPages() is recomputed from the current length on each call: the number of whole pages in the file, saturating at 2^31 - 1 as the `(int)` cast of a larger `double` does; so it is the page count for every file below 2^31 pages and never exceeds it |
| `Storage.HeapFile.ReadPage` | src/java/simpledb/storage/HeapFile.java:77-107 | readPage succeeds exactly for the page numbers of the file's whole pages, including when `pNo + 1` overflows an `int`. On success it returns that page's content under the requested id; every failure is an IllegalArgumentException |
| `Storage.HeapFile.GetPage` | src/java/simpledb/storage/HeapFile.java:140 | the buffer pool hands out a page exactly when it belongs to this table and lies in the file, and it is that page's current content; a page of another table is a DbException, a page outside the file an IllegalArgumentException |
| `Storage.HeapFile.WritePage` | src/java/simpledb/storage/HeapFile.java:110-123 | writePage accepts exactly the page numbers from 0 to numPages(). A number above numPages() throws IllegalArgumentException and a negative one fails the seek with IOException, both changing nothing. An existing page is replaced in place; page numPages() grows the file by exactly one page. Afterwards readPage returns the written page |
| `Storage.HeapFile.InsertTuple` | src/java/simpledb/storage/HeapFile.java:134-158 | first fit: the row goes into the lowest-numbered page with an empty slot, no other page changes and numPages() is unchanged. When every page is full, exactly one page is appended holding just the row. It returns the one page it changed, or DbException when a fresh page has no slots |
| `Storage.HeapFile.InsertIntoNewPage` | src/java/simpledb/storage/HeapFile.java:147-156 | when every page is full, the file grows by exactly one page, written as page numPages(), which then holds just the inserted row and is returned; a page with no slots gives DbException |
| `Storage.HeapFile.InsertIntoPage` | src/java/simpledb/storage/HeapFile.java:140-144 | HeapPage.insertTuple on the cached page changes only that page of the file and returns it |
| `Storage.HeapFile.DeleteTuple` | src/java/simpledb/storage/HeapFile.java:161-171 | deleteTuple changes only the page named by the tuple's record id, clearing that slot, and returns that one page. A missing record id throws NullPointerException; a page of another table, or a slot not holding the row, throws DbException; a page outside the file throws readPage's IllegalArgumentException. Every failure changes nothing |
| `Storage.HeapFile.Iterator` | src/java/simpledb/storage/HeapFile.java:174-178 | iterator() returns a fresh, unopened cursor over this file |
| `Storage.HeapFileIterator.constructor` | src/java/simpledb/storage/HeapFile.java:190-193 | a new cursor is not open (`it` is null) and is positioned at page 0 |
| `Storage.HeapFileIterator.GetPageTuples` | src/java/simpledb/storage/HeapFile.java:206-214 | getPageTuples yields that page's tuples for page numbers in [0, numPages()), otherwise DbException |
| `Storage.HeapFileIterator.Open` | src/java/simpledb/storage/HeapFile.java:201-204 | open positions at page 0 and then has the whole scan of the file left to return; a file without pages throws DbException |
| `Storage.HeapFileIterator.HasNext` | src/java/simpledb/storage/HeapFile.java:220-239 | hasNext is true exactly when tuples remain; it never changes what remains. It is false while closed. It moves forward only from a used-up page, to the next page with tuples or to the last page |
| `Storage.HeapFileIterator.SkipUsedPages` | src/java/simpledb/storage/HeapFile.java:224-236 | hasNext's loop, from a used-up page: it stops on the next page with tuples or on the last page, answers whether tuples remain, and never changes what remains |
| `Storage.HeapFileIterator.AdvancePage` | src/java/simpledb/storage/HeapFile.java:225-231 | one step of hasNext's loop moves to the next page and takes its tuples without changing what remains to return |
| `Storage.HeapFileIterator.Next` | src/java/simpledb/storage/HeapFile.java:249-254 | next returns and removes the first remaining tuple of the current page. It throws NoSuchElementException while closed or once the current page is used up, even if later pages hold tuples |
| `Storage.HeapFileIterator.Rewind` | src/java/simpledb/storage/HeapFile.java:262-265 | rewind is close then open: the whole scan is left to return again, or DbException and a closed cursor for a file without pages |
| `Storage.HeapFileIterator.Close` | src/java/simpledb/storage/HeapFile.java:271-273 | close leaves nothing to return |
| `Aggregation.OutputSchema` | src/java/simpledb/execution/IntegerAggregator.java:48-52 | the output schema is (aggval: int) without grouping and (gbval: group-by type, aggval: int) with it |
| `Aggregation.GroupKeyOf` | src/java/simpledb/execution/IntegerAggregator.java:65 | the group key is null exactly when there is no grouping, and otherwise the tuple's group-by field |
| `Aggregation.OutputTuple` | src/java/simpledb/execution/IntegerAggregator.java:117-134 | a result tuple is (aggval), or (gbval, aggval) when there is a key: the key first, the aggregate value last, and no record id; StringAggregator.java:73-79 builds its tuples the same way |
| `Aggregation.OutputTupleFitsSchema` | src/java/simpledb/execution/IntegerAggregator.java:117-123 | a result tuple has one field per output column: the key under gbval when grouping, the aggregate under aggval |
| `Aggregation.SeqMax` | src/java/simpledb/execution/IntegerAggregator.java:69-71 | MAX of a group is one of its values and no value exceeds it |
| `Aggregation.SeqMin` | src/java/simpledb/execution/IntegerAggregator.java:72-74 | MIN of a group is one of its values and no value is below it |
| `Aggregation.Average` | src/java/simpledb/execution/IntegerAggregator.java:111-116 | AVG is the wrapped sum divided by the number of values, truncated toward zero: the remainder has the sign of the wrapped sum and is smaller than the count |
| `Aggregation.RunningValue` | src/java/simpledb/execution/IntegerAggregator.java:69-80 | the value a merge puts under the key: for MAX at least the new value and the key's old value and equal to one of them, for MIN the mirror image; for SUM the old value (0 if none) plus the new one, and for COUNT the old value plus one, both modulo 2^32 |
| `Aggregation.Appended` | src/java/simpledb/execution/IntegerAggregator.java:81-90 | the AVG list update: the key's list, empty if new, gets the value at its end, and every other key's list is unchanged |
| `Aggregation.MergeAgrees` | src/java/simpledb/execution/IntegerAggregator.java:68-80 | after a MIN, MAX, SUM or COUNT merge, every key's running value is still the aggregate of all values merged under it, and only the merged key's entry changes |
| `Aggregation.ValueAfterMerge` | src/java/simpledb/execution/IntegerAggregator.java:69-80 | the value the switch puts for the merged key, starting from the value itself for MAX and MIN and from 0 for SUM and COUNT, is the aggregate of the key's values including the new one |
| `Aggregation.MaxMerge` | src/java/simpledb/execution/IntegerAggregator.java:69-71 | the MAX case of the merge, defaulting to the value itself, yields the MAX of the key's values including the new one |
| `Aggregation.MinMerge` | src/java/simpledb/execution/IntegerAggregator.java:72-74 | the MIN case of the merge, defaulting to the value itself, yields the MIN of the key's values including the new one |
| `Aggregation.SumMerge` | src/java/simpledb/execution/IntegerAggregator.java:75-77 | the SUM case of the merge, defaulting to 0, yields the wrapped exact sum of the key's values including the new one |
| `Aggregation.CountMerge` | src/java/simpledb/execution/IntegerAggregator.java:78-80 | the COUNT case of the merge, defaulting to 0, yields the wrapped number of the key's values including the new one |
| `Aggregation.MaxStep` | src/java/simpledb/execution/IntegerAggregator.java:70 | MAX of the values plus one more is `Math.max` of the old MAX and the new value |
| `Aggregation.MinStep` | src/java/simpledb/execution/IntegerAggregator.java:73 | MIN of the values plus one more is `Math.min` of the old MIN and the new value |
| `Aggregation.SumStep` | src/java/simpledb/execution/IntegerAggregator.java:76 | a wrapped running sum plus the new value, wrapped, is the wrapped exact sum including it |
| `Aggregation.CountStep` | src/java/simpledb/execution/IntegerAggregator.java:79 | a wrapped counter plus one, wrapped, is the wrapped exact count plus one |
| `Aggregation.CountPositive` | src/java/simpledb/execution/StringAggregator.java:55 | below 2^31 merges a group's count does not wrap, so it is at least 1 |
| `Aggregation.AverageBetween` | src/java/simpledb/execution/IntegerAggregator.java:111-116 | when a group's exact sum fits an `int`, its AVG lies between its MIN and its MAX |
| `IntegerAggregation.IntegerAggregator.constructor` | src/java/simpledb/execution/IntegerAggregator.java:40-54 | a new aggregator has empty maps and the output schema for its grouping |
| `IntegerAggregation.IntegerAggregator.MergeTupleIntoGroup` | src/java/simpledb/execution/IntegerAggregator.java:63-95 | a merge succeeds exactly for MIN, MAX, SUM, COUNT and AVG, and otherwise throws IllegalArgumentException, changing nothing. MIN, MAX, SUM and COUNT update only the tuple's key in `groupMap` and never touch `avgMap`; AVG appends to the key's list and never touches `groupMap`. Every entry stays the aggregate of the values merged under its key |
| `IntegerAggregation.IntegerAggregator.Iterator` | src/java/simpledb/execution/IntegerAggregator.java:105-139 | iterator() emits one tuple per merged key, no key twice, each carrying the aggregate of the values merged under that key. Each key has at least one value, so AVG never divides by zero |
| `IntegerAggregation.IntegerAggregator.EntryIsAggregate` | src/java/simpledb/execution/IntegerAggregator.java:126-134 | under MIN, MAX, SUM or COUNT, every key of `groupMap` has at least one merged value and its entry is their aggregate |
| `IntegerAggregation.IntegerAggregator.AverageResults` | src/java/simpledb/execution/IntegerAggregator.java:108-125 | under AVG, one tuple per key of `avgMap`, each carrying the wrapping sum of its non-empty list divided by its length, truncated toward zero |
| `IntegerAggregation.IntegerAggregator.RunningResults` | src/java/simpledb/execution/IntegerAggregator.java:126-137 | under the other operators, one tuple per key of `groupMap`, each carrying that key's value |
| `IntegerAggregation.WrappingSum` | src/java/simpledb/execution/IntegerAggregator.java:111-115 | the `int` running sum over a list is the list's exact sum wrapped to `int` |
| `StringAggregation.Incremented` | src/java/simpledb/execution/StringAggregator.java:55 | a COUNT merge adds the key if new with counter 1, adds one to an existing counter (wrapping from 2^31 - 1 to -2^31), and leaves every other key's counter as it was |
| `StringAggregation.CountMergeAgrees` | src/java/simpledb/execution/StringAggregator.java:55 | incrementing a key's counter keeps every counter equal to its key's number of merges, wrapped to `int` |
| `StringAggregation.StringAggregator.constructor` | src/java/simpledb/execution/StringAggregator.java:32-44 | a new aggregator accepts every operator, has an empty map, and has the output schema for its grouping |
| `StringAggregation.StringAggregator.MergeTupleIntoGroup` | src/java/simpledb/execution/StringAggregator.java:50-59 | under COUNT a merge adds one to its key's counter, starting from 0, and changes no other key; the string's value plays no part. Any other operator throws IllegalArgumentException and changes nothing |
| `StringAggregation.StringAggregator.Iterator` | src/java/simpledb/execution/StringAggregator.java:69-83 | iterator() emits one tuple per key of `groupMap`, no key twice, each carrying the key's number of merges (wrapped to `int`), which is at least 1 |

## Left out

- File I/O is not modelled. `RandomAccessFile`, `BufferedOutputStream`, seek, read, write, `printStackTrace` and the close calls are replaced by the file's byte length plus the content of each whole page. RandomAccessFile.read is taken to return every byte available up to a page.
- Buffer pool caching, locking, permissions and transactions are not modelled. `getPage` is a lookup of the file's current page, so the cache and the disk are one sequence of pages, and nothing models when dirty pages are flushed.
- `getId()` hashes the file's absolute path, a foreign call. It is a constant field of each `HeapFile`.
- `numPages()` computes a `double` floor. The model uses integer floor division, which agrees with the `double` computation for every length whose page count fits an `int` (the length is below 2^53 and the page size is a power of two), and models the `(int)` cast's saturation at 2^31 - 1 beyond it. `HeapFile.Valid` allows at most 2^31 pages, the most writePage can reach.
- `Storage.HeapFile.InsertTuple` requires a file below 2^31 pages, and below 2^31 - 1 pages when it has to append. At those sizes numPages() saturates, the loop misses the last page, and the appended page is not the one read back; those sizes are not modelled.
- `Storage.HeapFileIterator.Valid` (and so every cursor method) requires a file below 2^31 pages. At exactly 2^31 pages numPages() saturates and the scan would miss the last page; that case is not modelled.
- `HeapPage` is not part of this model: its byte layout, header bitmap, `createEmptyPageData` and slot count formula. A page is a sequence of optional rows.
- `HeapPage.insertTuple` is assumed to fill the lowest-numbered empty slot (`PageContract.FirstEmpty`). The contracts the heap file relies on hold for any empty slot.
- `Storage.HeapFile.DeleteTuple`: a record id naming a page of another table fails with DbException and changes nothing. The source would delete from that other table's file through the buffer pool; other files are not part of this model.
- The aggregators' `HashMap` iteration order is not modelled. `Iterator`'s contract holds for any order; the order it visited the keys in is a ghost output, used only to state that contract.
- The results are returned as a sequence of tuples, not wrapped in a `TupleIterator`.
- `ClassCastException` on a wrongly typed field and `IndexOutOfBoundsException` on a missing field are not modelled. The merge methods require the aggregate field to exist with the right type and the group-by field to exist.
- A `null` group-by type is not modelled. Without grouping the type is never used.
- `IntegerAggregation.IntegerAggregator.AverageResults`: `list.size()` is taken as exact. Lists longer than 2^31 - 1 values, where Java's `int` size would no longer be the length, are not modelled.
- Operators `SUM_COUNT` and `SC_AVG` exist in `Aggregator.Op` and are rejected like any other unsupported operator.

## Findings

| source | as written | input that shows it | evidently intended | confidence | as-written member | corrected member |
|---|---|---|---|---|---|---|
| src/java/simpledb/storage/HeapFile.java:119 | writePage seeks to `pageNumber * BufferPool.getPageSize()`, an `int` product that wraps | page number 2^19 (with 4096-byte pages) gives a negative offset, so the seek throws; page number 2^20 gives offset 0 and overwrites page 0 | a `long` offset, as readPage computes at line 89, so a written page is the page read back (`Storage.HeapFile.WritePage` ensures `ReadPage(page.pid) == Ok(page)`) | medium, not executed | `Storage.WriteOffsetAsWrittenWraps` | `Storage.HeapFile.WritePage` |
| src/java/simpledb/storage/HeapFile.java:147-152 | insertTuple appends the empty page at the current end of the file, then reads page numPages()-1 of the grown file | a 100-byte file: numPages() is 0, the append makes 4196 bytes, and page 0 is the 100 old bytes followed by most of the new page | the new page is page numPages(), at offset numPages() * pageSize, so it is the page read back (`Storage.AppendAsPageReadsBack`) | low, not executed | `Storage.AppendAsWrittenMisplaced` | `Storage.HeapFile.InsertTuple` |
