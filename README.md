# Summary dataset reader of the ND-LAr summary HDF5 files

This project models the reader class `NDLArSummaryH5DatasetReader`, which
reads one two-dimensional dataset of a summary HDF5 file: a table of cells,
one row per record, in which the column named by the event-column name tells
which event the row belongs to.
The reader offers:

- a column slice (`ColumnValues`), read one row chunk at a time;
- a rectangular block of rows and columns (`GridValues`), read one
  chunk-aligned block at a time into a buffer shared between calls;
- the event row map (`EventRowMap`): the event column read in full and cached;
- the set of events (`Events`);
- the row range of one event (`EventRowEdges`), found by a scan from both
  ends of the map followed by a walk to the other edge of the event's rows;
- the cached position of the event column (`ProductFirstColumn`).

The model has five modules.

- `Table` (table.dfy) is the store. The dataset is an immutable row-major
  table `seq<seq<V>>`. A hyperslab is a `Slab`. A physical read copies the
  selected cells (`Rect`) into a buffer, and fails when the selection leaves
  the table's extent. The lemmas here are about where a read's cells land in
  a flat buffer.
- `Chunking` (chunking.dfy) is the pure index arithmetic of the two chunked
  reads. It covers the chunk size, the blocks a column slice and a
  rectangular block are cut into, the memory dataspace shape and the
  resulting list of physical reads. It also holds the properties of these
  plans: they tile, they cover, they are aligned.
- `EventIndex` (event_index.dfy) is the event row map search. It has a
  functional specification (`Edges`), the imperative scan (`ScanEdges`) and
  the lemmas about what the search finds.
- `Catalog` (catalog.dfy) is the lookup of a column name.
- `Reader` (reader.dfy) is the class `SummaryDatasetReader`. Its fields are:
  - the cached event column index;
  - the cached event row map;
  - the shared read buffer;
  - a ghost log of every physical read issued.

  The methods are the reader's operations, each proved against a
  specification function. Each chunk loop is split into a loop method and a
  method for one pass of the loop.

## Model

| member | source | states |
|---|---|---|
| Reader.SummaryDatasetReader.ColumnValues | src/reco/NDLArSummaryH5DatasetReader.cxx:28-96 | The result is `ColumnSlice`. A negative last row means the table's last row. A request with last row <= first row gives an empty vector and issues no read. A defaulted last row on an empty table is an `EmptyExtent` error. A slice past the table is an `OutOfRange` error. Otherwise the result holds rows `firstRow .. last` of the column, in order. The log grows by the chunk reads, up to and including the first one that fails. |
| Reader.SummaryDatasetReader.ReadColumnBlocks | src/reco/NDLArSummaryH5DatasetReader.cxx:64-93 | The chunk loop succeeds exactly when the slice lies inside the table. On success, output cell `i` is table cell `(firstRow + i, colIdx)` for every `i`. The reads issued are the plan `ColumnReads` cut at the first failing read. |
| Reader.SummaryDatasetReader.ReadColumnChunk | src/reco/NDLArSummaryH5DatasetReader.cxx:74-92 | One pass reads block `chunkIdx` and shrinks the memory selection to the block when it is short. It fills exactly output indices `done .. done + rows` with their column cells and keeps the earlier ones. It logs the planned read, and the next block starts where this one ends. |
| Reader.SummaryDatasetReader.ReadRect | src/reco/NDLArSummaryH5DatasetReader.cxx:86-92 | A physical read appends its file selection and memory element count to the log. It succeeds exactly when the selection lies inside the table, and then writes the selection's cells, row-major, at the offset and changes nothing else. A failed read leaves the buffer unchanged. |
| Reader.SummaryDatasetReader.GridValues | src/reco/NDLArSummaryH5DatasetReader.cxx:100-210 | The buffer grows to at least `nRows * nCols` cells and never shrinks. The call succeeds exactly when the block lies inside the table. Then the first `nRows * nCols` cells of the buffer are the block's cells, row-major. The log grows by the block plan `GridReads`, cut at the first failing read. |
| Reader.SummaryDatasetReader.ReadGridBlocks | src/reco/NDLArSummaryH5DatasetReader.cxx:161-204 | The `for(;;)` loop over chunk-aligned blocks stops once a block's first row passes `endRow`. On success it leaves the whole block in the buffer at offset 0, and it issues the reads of `GridReads` in order. |
| Reader.SummaryDatasetReader.ReadGridChunk | src/reco/NDLArSummaryH5DatasetReader.cxx:165-202 | One pass writes block `chunkIdx` at element `(firstRow - startRow) * nCols`. It reselects a two-dimensional memory space to the block's rows when they differ from the current selection. If the buffer's first `filled` rows held the block's cells, its first `max(filled, end of this block)` rows hold them afterwards, and that reaches the next block's first row. |
| Reader.SummaryDatasetReader.ProductFirstColumn | src/reco/NDLArSummaryH5DatasetReader.cxx:323-335 | Returns one more than the position of the event column's name. A missing name gives the number of names plus one. The lookup runs only while the cache is unset, and a set cache is never changed. |
| Reader.SummaryDatasetReader.EventRowMap | src/reco/NDLArSummaryH5DatasetReader.cxx:277-294 | Returns the event column read in full, converted to event numbers. The map is read from the store only while the cache is empty. Such a call sets the column-index cache to the event column's position and issues exactly `FirstMapReads`: the event column from row 0 to the last row, chunk by chunk, up to the first failing read, or nothing for a table of at most one row. A filled cache is returned as is, with no read issued and no state changed. |
| Reader.SummaryDatasetReader.Events | src/reco/NDLArSummaryH5DatasetReader.cxx:214-217 | Returns the set of values of the event row map, or the error reading it. Afterwards the cache holds the map. A call made while the cache is empty sets the column-index cache and issues exactly `FirstMapReads`. A filled cache is kept, with no read issued. |
| Reader.SummaryDatasetReader.EventRowEdges | src/reco/NDLArSummaryH5DatasetReader.cxx:221-273 | Returns `Edges` of the event row map at depth `(size + 1) / 2`, or the error reading the map. Afterwards the cache holds the map. A call made while the cache is empty sets the column-index cache and issues exactly `FirstMapReads`. A filled cache is kept, with no read issued. |
| Table.Issued | src/reco/NDLArSummaryH5DatasetReader.cxx:86-92 | The reads issued from a plan are a prefix of it that ends at its first read outside the extent. |
| Table.RectAt | src/reco/NDLArSummaryH5DatasetReader.cxx:196-202 | Cell `(i, j)` of a selection is at offset `i * cols + j` of what a read delivers. |
| Table.RectSplit | src/reco/NDLArSummaryH5DatasetReader.cxx:161-204 | Reading the first `a` rows of a selection and then the rest delivers the same cells as reading it at once. |
| Table.RectSlice | src/reco/NDLArSummaryH5DatasetReader.cxx:199-202 | Elements `a * cols .. (a + b) * cols` of a read are the read of rows `a .. a + b` alone. |
| Table.RectColumnWrite | src/reco/NDLArSummaryH5DatasetReader.cxx:86-92 | A one-column read written at `offset` puts row `row + i` at `offset + i` and leaves every other element alone. |
| Table.RectOverlay | src/reco/NDLArSummaryH5DatasetReader.cxx:199-202 | Writing rows `a .. a + b` of a block at element `a * cols` of a buffer whose first `h >= a` rows already hold the block leaves the first `max(h, a + b)` rows holding it. |
| Chunking.ChunkSize | src/reco/NDLArSummaryH5DatasetReader.cxx:50-62 | The rows per read are the requested row count, lowered to the store's row-chunk size when the layout is chunked. The result is at least 1 for a non-empty request. |
| Chunking.ColumnBlocksTile | src/reco/NDLArSummaryH5DatasetReader.cxx:72-78 | There are `nRows / cs + 1` column blocks. They start at output offsets `0, cs, 2cs, ...`, at the same distance from `firstRow` in the table. Every block but the last is a full chunk. The last ends at the end of the output, and it is empty exactly when `cs` divides `nRows`. |
| Chunking.ColumnBlockOf | src/reco/NDLArSummaryH5DatasetReader.cxx:72-89 | Every output index lies in exactly one block, the one numbered `i / cs`. |
| Chunking.ColumnReadAt | src/reco/NDLArSummaryH5DatasetReader.cxx:74-86 | Read `k` of a column slice selects rows `firstRow + k * cs ..` of the column through a memory selection of the same size. It ends where read `k + 1` starts, or at the end of the slice. |
| Chunking.WrittenColumnBlocksFromZero | src/reco/NDLArSummaryH5DatasetReader.cxx:74-89 | From row 0, the only way the reader itself calls it, the row counts and output offsets as written equal the corrected ones. |
| Chunking.WrittenColumnBlocksMisplaced | src/reco/NDLArSummaryH5DatasetReader.cxx:74-89 | From row 1, rows 1..3, chunk 2: as written, the plan reads rows 1..2 into output 1..2 and then an empty block at row 3. Row 3 is never read, and output index 0 is never written. |
| Chunking.GridStartWithin | src/reco/NDLArSummaryH5DatasetReader.cxx:165-167 | Block `k` starts at or after `startRow`, block 0 starts at it, and block `k` is read exactly while `k < endRow / cs - startRow / cs + 1`. |
| Chunking.GridFirstBlock | src/reco/NDLArSummaryH5DatasetReader.cxx:165-171 | The first block starts at `startRow` and ends no later than the next multiple of the chunk size. |
| Chunking.GridBlocksAligned | src/reco/NDLArSummaryH5DatasetReader.cxx:163-165 | Every later block starts on a multiple of the chunk size, and block starts increase strictly. |
| Chunking.GridBlocksInside | src/reco/NDLArSummaryH5DatasetReader.cxx:165-171 | Every block is non-empty and lies inside `startRow .. endRow`. The next block starts no later than the row after it, and the last block ends at `endRow`. |
| Chunking.GridBlocksCover | src/reco/NDLArSummaryH5DatasetReader.cxx:161-204 | Every row of the request lies in some block. |
| Chunking.GridBlocksOverlapExample | src/reco/NDLArSummaryH5DatasetReader.cxx:165-171 | Rows 1..4 with chunk 2 are read as row 1, rows 2..4 and row 4. The block length is counted from `startRow`, not from the block's own first row, so reads overlap. |
| Chunking.MemShape | src/reco/NDLArSummaryH5DatasetReader.cxx:133-155 | The memory space has rank 1 exactly when the chunk is one row or the block one column. A rank-2 space is chunk rows by columns, and either way it holds `cs * nCols` elements. |
| Chunking.GridReadAt | src/reco/NDLArSummaryH5DatasetReader.cxx:165-196 | Read `k` of a block selects rows `first .. first + rows` of the block's columns, with `rows = min(next boundary - startRow, endRow - first + 1)`. The rows are non-empty and inside the request. The next read starts inside or right after them, and the last read ends at `endRow`. |
| Chunking.GridReadsMatchInRankTwo | src/reco/NDLArSummaryH5DatasetReader.cxx:182-194 | With a rank-2 memory space, every read selects as many memory elements as file elements. This compares counts only: the selection can still exceed the space (`RankTwoSelectionExceedsSpace`). |
| Chunking.RankTwoSelectionExceedsSpace | src/reco/NDLArSummaryH5DatasetReader.cxx:182-194 | Rows 0..5 of three columns with 2-row chunks: the memory space is 2 x 3 = 6 elements, but the second read covers rows 2..5 and reselects 12 memory elements. |
| Chunking.SingleColumnSelectionDiffers | src/reco/NDLArSummaryH5DatasetReader.cxx:142-148 | Rows 5..7 of one column, no chunking: the rank-1 memory space keeps 3 elements while the first read selects 1 file row. |
| EventIndex.ScanFrom | src/reco/NDLArSummaryH5DatasetReader.cxx:232-249 | The two-ended scan stops at the first step whose front row, or else whose back row, holds the event. Every earlier step held it in neither row. |
| EventIndex.RunEnd | src/reco/NDLArSummaryH5DatasetReader.cxx:255-262 | The forward walk ends at the last row of the event's run that contains the start. |
| EventIndex.RunStart | src/reco/NDLArSummaryH5DatasetReader.cxx:255-262 | The backward walk ends at the first row of the event's run that contains the start. |
| EventIndex.ScanEdges | src/reco/NDLArSummaryH5DatasetReader.cxx:227-272 | The imperative scan and walk return exactly `Edges(m, e, depth)`. |
| EventIndex.EdgesMiss | src/reco/NDLArSummaryH5DatasetReader.cxx:251-253 | The search reports `(-1, -1)` exactly when no scanned row holds the event. |
| EventIndex.EdgesFound | src/reco/NDLArSummaryH5DatasetReader.cxx:255-272 | A reported range lies inside the map with `first <= last`. Every row in it holds the event, and the rows just outside it do not. |
| EventIndex.EdgesContiguous | src/reco/NDLArSummaryH5DatasetReader.cxx:221-226 | When the event's rows are contiguous, a reported range holds every row of the event. |
| EventIndex.ScanDepthFindsEvery | src/reco/NDLArSummaryH5DatasetReader.cxx:232 | Scanning to depth `(size + 1) / 2` finds an event exactly when it is in the map. |
| EventIndex.WrittenScanMissesMiddleRow | src/reco/NDLArSummaryH5DatasetReader.cxx:232-253 | As written (depth `size / 2`), an event held only by the middle row of an odd-length map is reported as `(-1, -1)`. |
| EventIndex.WrittenScanMissesMiddleEvent | src/reco/NDLArSummaryH5DatasetReader.cxx:232-253 | On `[5, 7, 9]` the written search misses 7, and on `[4]` it misses 4. |
| EventIndex.EveryEventHasRange | src/reco/NDLArSummaryH5DatasetReader.cxx:264-272 | Every event of the map gets a range with `0 <= first <= last`, so the abort branch is never taken. |
| EventIndex.ExampleMap | src/reco/NDLArSummaryH5DatasetReader.cxx:214-273 | On `[5, 5, 5, 7, 7, 9]` the events are `{5, 7, 9}` and the ranges are `(0, 2)`, `(3, 4)` and `(5, 5)`. |
| Catalog.IndexOf | src/reco/NDLArSummaryH5DatasetReader.cxx:327-330 | The position of the first equal name, or the number of names when none is equal. |

## Left out

- The HDF5 library itself is not modelled: files, datasets, property lists, attribute reading and datatype conversion. A read is a copy of the selected cells, and a failing read is a `Failure` result instead of an exception.
- `ReadColumnNames` (the column-name attribute read) is not part of this model. The names are a constructor parameter.
- Cells are a type parameter `V`. The float-to-`size_t` conversion of event numbers is a function parameter `eventOf`.
- Console output (`std::cout`, `std::cerr`) and `abort()` are left out. `EveryEventHasRange` shows that the abort branch is unreachable for an event in the map.
- `fReadBuffer.reserve` only reserves capacity, so writing into it is undefined in C++. The model treats the buffer as a sequence grown to that capacity.
- The `new`/`delete` of `grid_dims` is left out.
- The `assert(chunk_dims[1] >= colIdx)` of `ColumnValues` is left out. In a build with assertions enabled, it aborts the read when the chunk is narrower than `colIdx`. The model reads the column regardless.
- In a rank-1 memory space, HDF5 rejects a read whose memory and file selections differ in size. The model records both sizes in the log instead (see `SingleColumnSelectionDiffers`).
- In a rank-2 memory space of `chunkSize x nCols`, a block that crosses a chunk boundary has more than `chunkSize` rows. The reselection to `chunkRows x nCols` then reaches past the space's extent, and HDF5 rejects such a selection. The model accepts it: every read inside the table succeeds (see `RankTwoSelectionExceedsSpace`, and the second read of `GridBlocksOverlapExample`, which puts 3 rows into a 2-row space). `GridReadsMatchInRankTwo` compares element counts only.
- Reader.SummaryDatasetReader.GridValues: requires `startRow <= endRow` and `startCol <= endCol`. The source computes `nRows` and `nCols` in wrapping `size_t` arithmetic and does not guard against reversed ranges.
- Default arguments (`firstRow = 0`, `lastRow = -1`) are not modelled. `EventRowMap` passes them explicitly.
- EventIndex.ScanEdges: the source's walk reads `EventRowMap()[otherEnd]` before it checks that `otherEnd` is in range. The model tests the index first, so it has no out-of-bounds read at the ends of the map.
- Reader.SummaryDatasetReader.ColumnValues: a request whose last row equals its first row returns an empty vector, as the code does. A one-row slice is never delivered.
- Reader.SummaryDatasetReader.ColumnValues: when the last row is defaulted on an empty table, the source computes with `size_t` wrap-around. From row 0 the row count is 0, and the loop bound divides by a zero chunk size. From a later row, the wrapped row count makes the allocation of the output vector fail first. The model returns `Failure(EmptyExtent)` in both cases.
- Reader.SummaryDatasetReader.EventRowMap: the console output prints `fRowEvents[0]`, which is out of range for an empty map. It is not modelled.
- Reader.SummaryDatasetReader.ReadColumnBlocks, ReadColumnChunk, ReadGridBlocks and ReadGridChunk split the two chunk loops of the source into a loop and one pass of it. The grid loop keeps the source's statements in the same order. The column loop uses the corrected block arithmetic described next.
- Reader.SummaryDatasetReader.ColumnValues (with ReadColumnBlocks and ReadColumnChunk): uses the corrected block arithmetic of the first finding, with the row count and the output index taken from `startRow - firstRow`. The source's arithmetic is `Chunking.WrittenColumnBlocks`. `WrittenColumnBlocksFromZero` proves the two equal from row 0, the only first row the reader itself uses. `WrittenColumnBlocksMisplaced` shows where they part for a later first row.
- Reader.SummaryDatasetReader.EventRowEdges: scans to the corrected depth `ScanDepth(size) = (size + 1) / 2` of the second finding. The source's search is `EventIndex.ScanEdges(m, e, WrittenScanDepth(|m|))`, which `WrittenScanMissesMiddleRow` shows missing the middle row of an odd-length map.
- Integer widths are not modelled, apart from the wrap-around in `WrittenColumnBlocks`. This covers the `int lastRow` parameter of `ColumnValues` and its assignment from the row count, the `int` row results of `EventRowEdges`, and the `size_t` product `nRows * nCols` passed to `reserve`. Rows and counts are unbounded naturals.
- Concurrency and `mutable` caching across threads are not modelled.

## Findings

| source | as written | input that shows it | evidently intended | confidence | as-written member | corrected member |
|---|---|---|---|---|---|---|
| src/reco/NDLArSummaryH5DatasetReader.cxx:75 | The rows of a column block are `min(chunkSize, nRows - startRow)`, with `startRow` an absolute table row. At line 89 the block is written at `&column[startRow]`. | `firstRow = 1`, `lastRow = 3`, chunk size 2: the first read puts rows 1..2 at indices 1..2. The second read has `chunkRows = min(2, 3 - 3) = 0`, and row 3 is never read. Each read's memory selection matches its file selection, so no error is raised. The vector is value-initialised at line 64, so the call returns `[0.0f, row 1, row 2]` instead of rows 1..3: the wrong first value is a plausible-looking zero. | Use `startRow - firstRow` for both the row count and the output index. | not executed | Chunking.WrittenColumnBlocksMisplaced | Chunking.ColumnBlockOf |
| src/reco/NDLArSummaryH5DatasetReader.cxx:232 | The two-ended scan runs while `counter < size / 2`. | Map `[5, 7, 9]`, event 7: no scanned row holds 7, and the search reports `(-1, -1)`. | Scan while `counter < (size + 1) / 2`, so the middle row is looked at. | not executed | EventIndex.WrittenScanMissesMiddleRow | EventIndex.ScanDepthFindsEvery |
