/** The summary dataset reader: chunk-aware column and block reads over the
    store, the lazily built event row map, and the cached position of the
    event column.  Every physical read is appended to the ghost log
    `physicalReads`, so the contracts can say which reads a call issues. */
module Reader {
  import opened Table
  import opened Chunking
  import opened EventIndex
  import opened Catalog

  class SummaryDatasetReader<V(0)> {
    /** The dataset's cells, row by row, and its column count. */
    const table: seq<seq<V>>
    const numCols: nat
    /** How the dataset's rows are stored. */
    const layout: Layout
    /** The names in the column-name attribute, and the event column's name. */
    const columnNames: seq<string>
    const eventColumnName: string
    /** How a cell of the event column becomes an event number. */
    const eventOf: V -> nat

    /** Cached index of the event column; negative until it is looked up. */
    var evtColumnIdx: int
    /** Cached event row map; empty until it is read. */
    var rowEvents: seq<nat>
    /** The block buffer shared by all block reads; its length is its capacity. */
    var readBuffer: seq<V>
    /** Every physical read issued so far, in order. */
    ghost var physicalReads: seq<PhysicalRead>

    /** The store is a proper table and its chunks hold at least one row. */
    ghost predicate Stored()
    {
      Shaped(table, numCols) && (layout.Chunked? ==> 1 <= layout.chunkRows)
    }

    /** The store is proper and the caches hold what they would be recomputed as. */
    ghost predicate Valid()
      reads this`evtColumnIdx, this`rowEvents
    {
      && Stored()
      && (evtColumnIdx < 0 ==> evtColumnIdx == -1)
      && (0 <= evtColumnIdx ==> evtColumnIdx == IndexOf(columnNames, eventColumnName))
      && (rowEvents != [] ==> EventColumn() == Success(rowEvents))
    }

    constructor (table: seq<seq<V>>, numCols: nat, layout: Layout,
                 columnNames: seq<string>, eventColumnName: string, eventOf: V -> nat)
      requires Shaped(table, numCols) && (layout.Chunked? ==> 1 <= layout.chunkRows)
      ensures Valid()
      ensures this.table == table && this.numCols == numCols && this.layout == layout
      ensures this.columnNames == columnNames && this.eventColumnName == eventColumnName
      ensures this.eventOf == eventOf
      ensures evtColumnIdx == -1 && rowEvents == [] && readBuffer == [] && physicalReads == []
    {
      this.table := table;
      this.numCols := numCols;
      this.layout := layout;
      this.columnNames := columnNames;
      this.eventColumnName := eventColumnName;
      this.eventOf := eventOf;
      evtColumnIdx := -1;
      rowEvents := [];
      readBuffer := [];
      physicalReads := [];
    }

    // -------------------------------------------------------------------
    // Specification of the reads

    /** The last row a column read stops at: a negative `lastRow` means the
        last row of the table. */
    function ResolvedLast(lastRow: int): int
    {
      if lastRow < 0 then |table| - 1 else lastRow
    }

    /** What a column read delivers: rows `firstRow .. last` of column `col`,
        nothing when `last <= firstRow` (so a single-row request is empty),
        and an error when the last row was defaulted on a table without rows
        or the request reaches past the table. */
    function ColumnSlice(col: nat, firstRow: nat, lastRow: int): (r: Result<seq<V>>)
      requires Shaped(table, numCols)
    {
      var last := ResolvedLast(lastRow);
      if last < 0 then Failure(EmptyExtent)
      else if last <= firstRow then Success([])
      else if |table| <= last || numCols <= col then Failure(OutOfRange)
      else Success(seq(last - firstRow + 1, i requires 0 <= i < last - firstRow + 1 => table[firstRow + i][col]))
    }

    /** The event row map read from the table: the event column (the column
        named `eventColumnName`) read in full, one event per row. */
    ghost function EventColumn(): Result<seq<nat>>
      requires Shaped(table, numCols)
    {
      match ColumnSlice(IndexOf(columnNames, eventColumnName), 0, -1)
      case Success(cells) => Success(seq(|cells|, i requires 0 <= i < |cells| => eventOf(cells[i])))
      case Failure(err) => Failure(err)
    }

    /** The reads the first reading of the event row map issues: the event
        column from row 0 to the last row, chunk by chunk, up to the first
        read outside the table; none when the table has at most one row. */
    ghost function FirstMapReads(): (r: seq<PhysicalRead>)
      requires Stored()
      ensures |table| <= 1 ==> r == []
      ensures 1 < |table| ==> 1 <= |r|
    {
      if |table| <= 1 then []
      else
        var col := IndexOf(columnNames, eventColumnName);
        var plan := ColumnReads(0, |table|, ChunkSize(|table|, layout), col);
        Issued(plan, |table|, numCols)
    }

    // -------------------------------------------------------------------
    // The physical read

    /** Reads selection `s` of the table into `buf` from `offset` on, through
        a memory selection of `memElements` elements, and gives back the
        buffer.  A selection outside the table fails and writes nothing. */
    method ReadRect(buf: seq<V>, offset: nat, s: Slab, memElements: nat) returns (ok: bool, out: seq<V>)
      requires Shaped(table, numCols)
      requires offset + s.rows * s.cols <= |buf|
      modifies this`physicalReads
      ensures physicalReads == old(physicalReads) + [PhysicalRead(s, memElements)]
      ensures ok == Within(s, |table|, numCols)
      ensures ok ==> out == buf[..offset] + Rect(table, numCols, s) + buf[offset + s.rows * s.cols ..]
      ensures !ok ==> out == buf
    {
      physicalReads := physicalReads + [PhysicalRead(s, memElements)];
      ok := Within(s, |table|, numCols);
      out := buf;
      if ok {
        out := buf[..offset] + Rect(table, numCols, s) + buf[offset + s.rows * s.cols ..];
      }
    }

    // -------------------------------------------------------------------
    // Column slices

    /** Reads rows `firstRow .. lastRow` of column `colIdx` one chunk at a
        time into a new vector.  Block `k` covers output indices
        `k * chunkSize ..` and is written at its distance from `firstRow`.
        The reads stop at the first one that falls outside the table. */
    method ColumnValues(colIdx: nat, firstRow: nat, lastRow: int) returns (r: Result<seq<V>>)
      requires Stored()
      modifies this`physicalReads
      ensures r == ColumnSlice(colIdx, firstRow, lastRow)
      ensures ResolvedLast(lastRow) <= firstRow ==> physicalReads == old(physicalReads)
      ensures firstRow < ResolvedLast(lastRow) ==>
        var nRows := ResolvedLast(lastRow) - firstRow + 1;
        physicalReads == old(physicalReads)
                         + Issued(ColumnReads(firstRow, nRows, ChunkSize(nRows, layout), colIdx), |table|, numCols)
    {
      var last := lastRow;
      if last < 0 {
        last := |table| - 1;
      }
      if last < 0 {
        // the source compares and sizes in unsigned arithmetic here and
        // divides by zero or allocates a wrapped-around size
        return Failure(EmptyExtent);
      }
      if last <= firstRow {
        return Success([]);
      }
      var nRows := last - firstRow + 1;
      var ok, column := ReadColumnBlocks(colIdx, firstRow, nRows);
      if !ok {
        return Failure(OutOfRange);
      }
      ColumnSliceIs(colIdx, firstRow, lastRow, column);
      return Success(column);
    }

    /** The chunk loop of ColumnValues: reads `nRows` rows of column `colIdx`
        from `firstRow` on, block by block, into a new column, and stops at
        the first block outside the table. */
    method ReadColumnBlocks(colIdx: nat, firstRow: nat, nRows: nat) returns (ok: bool, column: seq<V>)
      requires Stored() && 1 <= nRows
      modifies this`physicalReads
      ensures physicalReads == old(physicalReads)
                               + Issued(ColumnReads(firstRow, nRows, ChunkSize(nRows, layout), colIdx), |table|, numCols)
      ensures ok <==> firstRow + nRows <= |table| && colIdx < numCols
      ensures ok ==> |column| == nRows && forall i :: 0 <= i < nRows ==> column[i] == table[firstRow + i][colIdx]
    {
      var chunkSize := ChunkSize(nRows, layout);
      ghost var plan := ColumnReads(firstRow, nRows, chunkSize, colIdx);
      ColumnReadAt(firstRow, nRows, chunkSize, colIdx, 0);
      var blank: V := *;
      column := seq(nRows, _ => blank);
      var memRows := chunkSize;
      ghost var done := 0;
      var chunkIdx := 0;
      while chunkIdx < nRows / chunkSize + 1
        invariant chunkIdx <= |plan|
        invariant physicalReads == old(physicalReads) + plan[..chunkIdx]
        invariant forall k :: 0 <= k < chunkIdx ==> Within(plan[k].file, |table|, numCols)
        invariant chunkIdx < |plan| ==> memRows == chunkSize && plan[chunkIdx].file.row == firstRow + done
        invariant chunkIdx == |plan| ==> done == nRows
        invariant done <= nRows == |column|
        invariant 0 < done ==> firstRow + done <= |table| && colIdx < numCols
        invariant forall i :: 0 <= i < done ==> column[i] == table[firstRow + i][colIdx]
      {
        ok, column, memRows := ReadColumnChunk(column, firstRow, nRows, chunkSize, colIdx, chunkIdx, memRows, done);
        assert physicalReads == old(physicalReads) + plan[..chunkIdx + 1] by {
          assert plan[..chunkIdx + 1] == plan[..chunkIdx] + [plan[chunkIdx]];
        }
        if !ok {
          IssuedLog(old(physicalReads), physicalReads, plan, |table|, numCols, chunkIdx);
          return;
        }
        done := done + plan[chunkIdx].file.rows;
        chunkIdx := chunkIdx + 1;
      }
      IssuedLog(old(physicalReads), physicalReads, plan, |table|, numCols, chunkIdx);
      ok := true;
    }

    /** One pass of the chunk loop of ColumnValues: block `chunkIdx` of the
        slice, which starts `done` rows into it, is read into `column` at that
        offset, after the memory selection is shrunk to the block when the
        block is short. */
    method ReadColumnChunk(column: seq<V>, firstRow: nat, nRows: nat, chunkSize: nat, colIdx: nat,
                           chunkIdx: nat, memRows: nat, ghost done: nat)
      returns (ok: bool, out: seq<V>, nextMemRows: nat)
      requires Stored() && 1 <= chunkSize && chunkIdx < nRows / chunkSize + 1
      requires |column| == nRows && memRows == chunkSize
      requires ColumnReads(firstRow, nRows, chunkSize, colIdx)[chunkIdx].file.row == firstRow + done
      modifies this`physicalReads
      ensures var plan := ColumnReads(firstRow, nRows, chunkSize, colIdx);
        var rows := plan[chunkIdx].file.rows;
        && physicalReads == old(physicalReads) + [plan[chunkIdx]]
        && ok == Within(plan[chunkIdx].file, |table|, numCols)
        && |out| == nRows
        && done + rows <= nRows
        && (chunkIdx + 1 < |plan| ==> nextMemRows == chunkSize && plan[chunkIdx + 1].file.row == firstRow + done + rows)
        && (chunkIdx + 1 == |plan| ==> done + rows == nRows)
        && (!ok ==> |table| < firstRow + nRows || numCols <= colIdx)
        && (ok ==> colIdx < numCols && firstRow + done + rows <= |table|)
        && (ok ==> forall i :: 0 <= i < done ==> out[i] == column[i])
        && (ok ==> forall i :: done <= i < done + rows ==> out[i] == table[firstRow + i][colIdx])
    {
      var startRow := firstRow + chunkIdx * chunkSize;
      ColumnReadAt(firstRow, nRows, chunkSize, colIdx, chunkIdx);
      if chunkIdx + 1 < nRows / chunkSize + 1 {
        ColumnReadAt(firstRow, nRows, chunkSize, colIdx, chunkIdx + 1);
      }
      var chunkRows := Min(chunkSize, nRows - (startRow - firstRow));
      nextMemRows := memRows;
      if chunkRows != chunkSize {
        nextMemRows := chunkRows;
      }
      var slab := Slab(startRow, chunkRows, colIdx, 1);
      ok, out := ReadRect(column, startRow - firstRow, slab, nextMemRows);
      if ok {
        RectColumnWrite(table, numCols, slab, startRow - firstRow, column, out);
      }
    }

    /** A column of the slice's length holding the slice's cells is what
        ColumnSlice delivers. */
    lemma ColumnSliceIs(colIdx: nat, firstRow: nat, lastRow: int, column: seq<V>)
      requires Stored()
      requires firstRow < ResolvedLast(lastRow) < |table| && colIdx < numCols
      requires |column| == ResolvedLast(lastRow) - firstRow + 1
      requires forall i :: 0 <= i < |column| ==> column[i] == table[firstRow + i][colIdx]
      ensures ColumnSlice(colIdx, firstRow, lastRow) == Success(column)
    {
      var last := ResolvedLast(lastRow);
      assert column == seq(last - firstRow + 1, i requires 0 <= i < last - firstRow + 1 => table[firstRow + i][colIdx]);
    }

    // -------------------------------------------------------------------
    // Rectangular blocks

    /** Reads rows `startRow .. endRow`, columns `startCol .. endCol` into the
        shared buffer, row-major from index 0, one chunk-aligned block at a
        time; the buffer grows when it is too small and never shrinks.  The
        reads stop at the first one that falls outside the table. */
    method GridValues(startRow: nat, endRow: nat, startCol: nat, endCol: nat) returns (ok: bool)
      requires Stored()
      requires startRow <= endRow && startCol <= endCol
      modifies this`readBuffer, this`physicalReads
      ensures |readBuffer| == Max(old(|readBuffer|), (endRow - startRow + 1) * (endCol - startCol + 1))
      ensures ok <==> endRow < |table| && endCol < numCols
      ensures ok ==> readBuffer[..(endRow - startRow + 1) * (endCol - startCol + 1)]
                     == Rect(table, numCols, Slab(startRow, endRow - startRow + 1, startCol, endCol - startCol + 1))
      ensures physicalReads == old(physicalReads)
                               + Issued(GridReads(startRow, endRow, startCol, endCol - startCol + 1,
                                                  ChunkSize(endRow - startRow + 1, layout)), |table|, numCols)
    {
      var nRows := endRow - startRow + 1;
      var nCols := endCol - startCol + 1;
      if |readBuffer| < nRows * nCols {
        var blank: V := *;
        readBuffer := readBuffer + seq(nRows * nCols - |readBuffer|, _ => blank);
      }
      ok, readBuffer := ReadGridBlocks(readBuffer, startRow, endRow, startCol, nCols);
    }

    /** The chunk loop of GridValues: reads the block's rows into `buf` at
        their distance from `startRow`, one chunk-aligned block at a time,
        and stops at the first read outside the table. */
    method ReadGridBlocks(buf: seq<V>, startRow: nat, endRow: nat, startCol: nat, nCols: nat)
      returns (ok: bool, out: seq<V>)
      requires Stored() && startRow <= endRow && 1 <= nCols
      requires (endRow - startRow + 1) * nCols <= |buf|
      modifies this`physicalReads
      ensures physicalReads == old(physicalReads)
                               + Issued(GridReads(startRow, endRow, startCol, nCols,
                                                  ChunkSize(endRow - startRow + 1, layout)), |table|, numCols)
      ensures |out| == |buf|
      ensures ok <==> endRow < |table| && startCol + nCols <= numCols
      ensures ok ==> Holds(table, numCols, out, Slab(startRow, endRow - startRow + 1, startCol, nCols))
    {
      var nRows := endRow - startRow + 1;
      var chunkSize := ChunkSize(nRows, layout);
      var dims := MemShape(chunkSize, nCols);
      var memRows := dims[0];
      ghost var plan := GridReads(startRow, endRow, startCol, nCols, chunkSize);
      ghost var filled := 0;
      out := buf;

      var chunkIdx := 0;
      var firstRow := GridStart(startRow, chunkSize, chunkIdx);
      GridStartWithin(startRow, endRow, chunkSize, chunkIdx);
      while firstRow <= endRow
        invariant chunkIdx <= |plan|
        invariant firstRow == GridStart(startRow, chunkSize, chunkIdx)
        invariant firstRow <= endRow <==> chunkIdx < |plan|
        invariant physicalReads == old(physicalReads) + plan[..chunkIdx]
        invariant forall k :: 0 <= k < chunkIdx ==> Within(plan[k].file, |table|, numCols)
        invariant |out| == |buf|
        invariant filled <= nRows
        invariant chunkIdx < |plan| ==> firstRow - startRow <= filled
        invariant chunkIdx == |plan| ==> filled == nRows
        invariant 0 < filled ==> Holds(table, numCols, out, Slab(startRow, filled, startCol, nCols))
        decreases |plan| - chunkIdx
      {
        ok, out, memRows, filled :=
          ReadGridChunk(out, startRow, endRow, startCol, nCols, chunkSize, dims, chunkIdx, firstRow, memRows, filled);
        assert physicalReads == old(physicalReads) + plan[..chunkIdx + 1] by {
          PrefixStep(plan, chunkIdx);
        }
        if !ok {
          IssuedLog(old(physicalReads), physicalReads, plan, |table|, numCols, chunkIdx);
          return;
        }
        chunkIdx := chunkIdx + 1;
        firstRow := GridStart(startRow, chunkSize, chunkIdx);
        GridStartWithin(startRow, endRow, chunkSize, chunkIdx);
      }
      assert chunkIdx == |plan| && filled == nRows;
      IssuedLog(old(physicalReads), physicalReads, plan, |table|, numCols, chunkIdx);
      assert Holds(table, numCols, out, Slab(startRow, nRows, startCol, nCols));
      ok := true;
    }

    /** One pass of the chunk loop of GridValues: block `chunkIdx`, which
        starts at `firstRow`, is read into `buf` at its distance from
        `startRow`, after a two-dimensional memory selection is reshaped to
        the block's rows.  Given that the first `filled` rows of the request
        are in place, the first `reached` rows are afterwards. */
    method ReadGridChunk(buf: seq<V>, startRow: nat, endRow: nat, startCol: nat, nCols: nat, chunkSize: nat,
                         dims: seq<nat>, chunkIdx: nat, firstRow: nat, memRows: nat, ghost filled: nat)
      returns (ok: bool, out: seq<V>, nextMemRows: nat, ghost reached: nat)
      requires Stored() && startRow <= endRow && 1 <= nCols && 1 <= chunkSize
      requires dims == MemShape(chunkSize, nCols)
      requires chunkIdx < |GridBlocks(startRow, endRow, chunkSize)|
      requires firstRow == GridStart(startRow, chunkSize, chunkIdx)
      requires (endRow - startRow + 1) * nCols <= |buf|
      requires firstRow - startRow <= filled <= endRow - startRow + 1
      requires 0 < filled ==> Holds(table, numCols, buf, Slab(startRow, filled, startCol, nCols))
      modifies this`physicalReads
      ensures var plan := GridReads(startRow, endRow, startCol, nCols, chunkSize);
        && physicalReads == old(physicalReads) + [plan[chunkIdx]]
        && ok == Within(plan[chunkIdx].file, |table|, numCols)
        && |out| == |buf|
        && (!ok ==> !(endRow < |table| && startCol + nCols <= numCols))
      ensures ok ==> && 0 < reached <= endRow - startRow + 1
                     && (chunkIdx + 1 < |GridBlocks(startRow, endRow, chunkSize)| ==>
                           GridStart(startRow, chunkSize, chunkIdx + 1) - startRow <= reached)
                     && (chunkIdx + 1 == |GridBlocks(startRow, endRow, chunkSize)| ==> reached == endRow - startRow + 1)
                     && Holds(table, numCols, out, Slab(startRow, reached, startCol, nCols))
    {
      GridReadAt(startRow, endRow, startCol, nCols, chunkSize, chunkIdx);
      var chunkRows := Min((firstRow / chunkSize + 1) * chunkSize - startRow, endRow - firstRow + 1);
      nextMemRows := memRows;
      if |dims| > 1 && chunkRows != nextMemRows {
        nextMemRows := chunkRows;
      }
      var memElements := if |dims| > 1 then nextMemRows * nCols else Product(dims);
      var rowOffset: nat := firstRow - startRow;
      var slab := Slab(startRow + rowOffset, chunkRows, startCol, nCols);
      reached := Max(filled, rowOffset + chunkRows);
      MulMono(rowOffset + chunkRows, endRow - startRow + 1, nCols);
      MulAdd(rowOffset, chunkRows, nCols);
      ok, out := ReadRect(buf, rowOffset * nCols, slab, memElements);
      if ok {
        RectOverlay(table, numCols, startRow, startCol, nCols, filled, rowOffset, chunkRows,
                    rowOffset * nCols, chunkRows * nCols, buf, out);
      }
    }

    // -------------------------------------------------------------------
    // Event index

    /** The event column's position plus one, looked up once and cached; a
        name missing from the catalog gives the number of columns plus one. */
    method ProductFirstColumn() returns (c: nat)
      requires Valid()
      modifies this`evtColumnIdx
      ensures Valid()
      ensures c == IndexOf(columnNames, eventColumnName) + 1
      ensures evtColumnIdx == c - 1
      ensures old(evtColumnIdx) >= 0 ==> evtColumnIdx == old(evtColumnIdx)
    {
      if evtColumnIdx < 0 {
        evtColumnIdx := IndexOf(columnNames, eventColumnName);
      }
      // the source asserts this; it always holds
      assert evtColumnIdx >= 0;
      c := evtColumnIdx + 1;
    }

    /** The event row map: read from the event column the first time it is
        asked for while it is empty, returned unchanged afterwards. */
    method EventRowMap() returns (r: Result<seq<nat>>)
      requires Valid()
      modifies this`rowEvents, this`evtColumnIdx, this`physicalReads
      ensures Valid()
      ensures r == EventColumn()
      ensures r.Success? ==> rowEvents == r.value
      ensures r.Failure? ==> rowEvents == []
      ensures old(rowEvents) != [] ==>
        rowEvents == old(rowEvents) && physicalReads == old(physicalReads) && evtColumnIdx == old(evtColumnIdx)
      ensures old(rowEvents) == [] ==> evtColumnIdx == IndexOf(columnNames, eventColumnName)
      ensures old(rowEvents) == [] ==> physicalReads == old(physicalReads) + FirstMapReads()
    {
      if rowEvents == [] {
        var col := ProductFirstColumn();
        var cells :- ColumnValues(col - 1, 0, -1);
        rowEvents := seq(|cells|, i requires 0 <= i < |cells| => eventOf(cells[i]));
      }
      return Success(rowEvents);
    }

    /** The set of events in the event row map. */
    method Events() returns (r: Result<set<nat>>)
      requires Valid()
      modifies this`rowEvents, this`evtColumnIdx, this`physicalReads
      ensures Valid()
      ensures EventColumn().Success? ==> r == Success(Values(EventColumn().value))
      ensures EventColumn().Failure? ==> r == Failure(EventColumn().error)
      ensures EventColumn().Success? ==> rowEvents == EventColumn().value
      ensures EventColumn().Failure? ==> rowEvents == []
      ensures old(rowEvents) != [] ==>
        rowEvents == old(rowEvents) && physicalReads == old(physicalReads) && evtColumnIdx == old(evtColumnIdx)
      ensures old(rowEvents) == [] ==> evtColumnIdx == IndexOf(columnNames, eventColumnName)
      ensures old(rowEvents) == [] ==> physicalReads == old(physicalReads) + FirstMapReads()
    {
      // the source asks for the map twice, once for each end of the range
      var first :- EventRowMap();
      var second := EventRowMap();
      match second {
        case Success(m) => r := Success(Values(m));
        case Failure(err) => r := Failure(err);
      }
    }

    /** The inclusive row range of `event` in the event row map, or (-1, -1). */
    method EventRowEdges(event: nat) returns (r: Result<(int, int)>)
      requires Valid()
      modifies this`rowEvents, this`evtColumnIdx, this`physicalReads
      ensures Valid()
      ensures EventColumn().Success? ==>
        var m := EventColumn().value;
        r == Success(Edges(m, event, ScanDepth(|m|)))
      ensures EventColumn().Failure? ==> r == Failure(EventColumn().error)
      ensures EventColumn().Success? ==> rowEvents == EventColumn().value
      ensures EventColumn().Failure? ==> rowEvents == []
      ensures old(rowEvents) != [] ==>
        rowEvents == old(rowEvents) && physicalReads == old(physicalReads) && evtColumnIdx == old(evtColumnIdx)
      ensures old(rowEvents) == [] ==> evtColumnIdx == IndexOf(columnNames, eventColumnName)
      ensures old(rowEvents) == [] ==> physicalReads == old(physicalReads) + FirstMapReads()
    {
      var m :- EventRowMap();
      var first, last := ScanEdges(m, event, ScanDepth(|m|));
      return Success((first, last));
    }
  }
}
