/** Index arithmetic of the chunk-aware reads: how a column slice and a
    rectangular block are cut into physical reads, and the shape of the memory
    dataspace the rectangular reads land in.  Everything here is a function of
    row numbers and the chunk size; the reader in module Reader issues exactly
    the reads these functions list. */
module Chunking {
  import opened Table

  /** size_t arithmetic wraps modulo 2^64. */
  const SizeModulus: nat := 0x1_0000_0000_0000_0000

  /** How the store lays out its rows: contiguously, or in chunks of `chunkRows` rows. */
  datatype Layout = Contiguous | Chunked(chunkRows: nat)

  function Min(a: nat, b: nat): nat { if a < b then a else b }

  function Max(a: nat, b: nat): nat { if a < b then b else a }

  /** Rows read per physical call when `nRows` rows are requested: the store's
      row-chunk size when the layout is chunked, never more than requested. */
  function ChunkSize(nRows: nat, layout: Layout): (cs: nat)
    ensures cs <= nRows
    ensures layout.Chunked? ==> cs <= layout.chunkRows
    ensures cs == nRows || (layout.Chunked? && cs == layout.chunkRows)
    ensures 1 <= nRows && (layout.Chunked? ==> 1 <= layout.chunkRows) ==> 1 <= cs
  {
    match layout
    case Contiguous => nRows
    case Chunked(d) => if d < nRows then d else nRows
  }

  // ---------------------------------------------------------------------
  // Arithmetic facts about multiples and integer division

  /** `a * d <= b` exactly when `a <= b / d` (integer division rounds down). */
  lemma MulLeIffLeDiv(a: nat, b: nat, d: nat)
    requires 1 <= d
    ensures a * d <= b <==> a <= b / d
  {
    if a <= b / d {
      MulMono(a, b / d, d);
    } else {
      MulMono(b / d + 1, a, d);
    }
  }

  /** `x / d` is the one `k` with `k * d <= x < k * d + d`. */
  lemma DivUnique(x: nat, d: nat, k: nat)
    requires 1 <= d && k * d <= x < k * d + d
    ensures x / d == k
  {
    MulLeIffLeDiv(k, x, d);
    assert (k + 1) * d == k * d + d;
    MulLeIffLeDiv(k + 1, x, d);
  }

  /** A multiple of `d` leaves no remainder. */
  lemma ModMultiple(a: nat, d: nat)
    requires 1 <= d
    ensures (a * d) / d == a && (a * d) % d == 0
  {
    DivUnique(a * d, d, a);
  }

  /** The first multiple of `d` above `x`. */
  lemma NextMultiple(x: nat, d: nat)
    requires 1 <= d
    ensures 0 <= x / d
    ensures (x / d) * d <= x < (x / d + 1) * d
  {
  }

  // ---------------------------------------------------------------------
  // Column slices

  /** One physical read of a column slice: `rows` rows from table row `row`,
      written to the output from index `dest` on. */
  datatype ColumnBlock = ColumnBlock(row: nat, rows: nat, dest: nat)

  /** Block `k` of a column slice of `nRows` rows from `firstRow`: it starts
      `k` chunks into the slice and holds what is left of a chunk. */
  function ColumnBlockAt(firstRow: nat, nRows: nat, cs: nat, k: nat): ColumnBlock
    requires 1 <= cs && k <= nRows / cs
  {
    MulLeIffLeDiv(k, nRows, cs);
    ColumnBlock(firstRow + k * cs, Min(cs, nRows - k * cs), k * cs)
  }

  /** The reads a column slice is cut into: one per started chunk, plus a
      final one that is empty when the chunk size divides the row count. */
  function ColumnBlocks(firstRow: nat, nRows: nat, cs: nat): seq<ColumnBlock>
    requires 1 <= cs
  {
    seq(nRows / cs + 1, k requires 0 <= k < nRows / cs + 1 => ColumnBlockAt(firstRow, nRows, cs, k))
  }

  /** The reads as the source writes them: the row count of a block is taken
      from `nRows - startRow` in wrapping size_t arithmetic, and the block is
      written at output index `startRow` rather than `startRow - firstRow`. */
  function WrittenColumnBlockAt(firstRow: nat, nRows: nat, cs: nat, k: nat): ColumnBlock
  {
    var startRow := firstRow + k * cs;
    ColumnBlock(startRow, Min(cs, (nRows - startRow) % SizeModulus), startRow)
  }

  function WrittenColumnBlocks(firstRow: nat, nRows: nat, cs: nat): seq<ColumnBlock>
    requires 1 <= cs
  {
    seq(nRows / cs + 1, k requires 0 <= k < nRows / cs + 1 => WrittenColumnBlockAt(firstRow, nRows, cs, k))
  }

  /** The blocks tile the output: they start at 0, cs, 2 cs, ... of the output
      and at the same distance from `firstRow` in the table, each is a full
      chunk except the last, which ends exactly at the end of the output and
      is empty when the chunk size divides the row count. */
  lemma ColumnBlocksTile(firstRow: nat, nRows: nat, cs: nat)
    requires 1 <= cs
    ensures var b := ColumnBlocks(firstRow, nRows, cs);
      && |b| == nRows / cs + 1
      && (forall k :: 0 <= k < |b| ==> b[k].dest == k * cs && b[k].row == firstRow + b[k].dest)
      && (forall k :: 0 <= k < |b| - 1 ==> b[k].rows == cs && b[k + 1].dest == b[k].dest + b[k].rows)
      && b[|b| - 1].dest + b[|b| - 1].rows == nRows
      && (b[|b| - 1].rows == 0 <==> nRows % cs == 0)
  {
    var b := ColumnBlocks(firstRow, nRows, cs);
    forall k | 0 <= k < |b| - 1
      ensures b[k].rows == cs && b[k + 1].dest == b[k].dest + b[k].rows
    {
      MulLeIffLeDiv(k + 1, nRows, cs);
      assert (k + 1) * cs == k * cs + cs;
    }
    var last := nRows / cs;
    assert b[last].dest == last * cs;
    assert nRows == last * cs + nRows % cs;
  }

  /** Every output index belongs to exactly one block, the one numbered
      `i / cs`, so the blocks fill the output in order without overlap. */
  lemma ColumnBlockOf(firstRow: nat, nRows: nat, cs: nat, i: nat)
    requires 1 <= cs && i < nRows
    ensures var b := ColumnBlocks(firstRow, nRows, cs);
      && i / cs < |b|
      && b[i / cs].dest <= i < b[i / cs].dest + b[i / cs].rows
      && forall k :: 0 <= k < |b| && b[k].dest <= i < b[k].dest + b[k].rows ==> k == i / cs
  {
    var b := ColumnBlocks(firstRow, nRows, cs);
    NextMultiple(i, cs);
    assert i / cs <= nRows / cs by {
      MulLeIffLeDiv(i / cs, nRows, cs);
    }
    assert b[i / cs] == ColumnBlockAt(firstRow, nRows, cs, i / cs);
    forall k | 0 <= k < |b| && b[k].dest <= i < b[k].dest + b[k].rows
      ensures k == i / cs
    {
      assert b[k] == ColumnBlockAt(firstRow, nRows, cs, k);
      DivUnique(i, cs, k);
    }
  }

  /** With `firstRow == 0`, the only way the source calls it, the written
      arithmetic and the corrected one agree. */
  lemma WrittenColumnBlocksFromZero(nRows: nat, cs: nat)
    requires 1 <= cs && nRows < SizeModulus
    ensures WrittenColumnBlocks(0, nRows, cs) == ColumnBlocks(0, nRows, cs)
  {
    forall k | 0 <= k < nRows / cs + 1
      ensures WrittenColumnBlockAt(0, nRows, cs, k) == ColumnBlockAt(0, nRows, cs, k)
    {
      MulLeIffLeDiv(k, nRows, cs);
    }
  }

  /** With `firstRow == 1`, rows 1..3 and a chunk of 2 rows, the written
      arithmetic reads rows 1..2 into output indices 1..2 and then an empty
      block at row 3: row 3 is never read and output index 0 is never
      written.  Each block's memory selection matches its file selection, so
      both reads go through. */
  lemma WrittenColumnBlocksMisplaced()
    ensures var b := WrittenColumnBlocks(1, 3, 2);
      && b == [ColumnBlock(1, 2, 1), ColumnBlock(3, 0, 3)]
      && (forall k :: 0 <= k < |b| ==> !(b[k].row <= 3 < b[k].row + b[k].rows))
      && (forall k :: 0 <= k < |b| ==> !(b[k].dest <= 0 < b[k].dest + b[k].rows))
  {
    var b := WrittenColumnBlocks(1, 3, 2);
    assert |b| == 2;
    assert b[0] == WrittenColumnBlockAt(1, 3, 2, 0);
    assert b[1] == WrittenColumnBlockAt(1, 3, 2, 1);
  }

  /** The physical reads of a column slice of column `col`: each reads its
      block's rows of that one column into a memory selection of as many elements. */
  function ColumnReads(firstRow: nat, nRows: nat, cs: nat, col: nat): (r: seq<PhysicalRead>)
    requires 1 <= cs
    ensures |r| == nRows / cs + 1
  {
    var b := ColumnBlocks(firstRow, nRows, cs);
    seq(|b|, k requires 0 <= k < |b| => PhysicalRead(Slab(b[k].row, b[k].rows, col, 1), b[k].rows))
  }
  /** Read `k` of a column slice on its own: the rows it covers and how it
      meets the next read or the end of the output. */
  lemma ColumnReadAt(firstRow: nat, nRows: nat, cs: nat, col: nat, k: nat)
    requires 1 <= cs && k < nRows / cs + 1
    ensures k * cs <= nRows
    ensures var r := ColumnReads(firstRow, nRows, cs, col);
      var rows := Min(cs, nRows - k * cs);
      && |r| == nRows / cs + 1
      && r[k] == PhysicalRead(Slab(firstRow + k * cs, rows, col, 1), rows)
      && k * cs + rows <= nRows
      && (k + 1 < |r| ==> rows == cs && (k + 1) * cs == k * cs + cs)
      && (k + 1 == |r| ==> k * cs + rows == nRows)
  {
    var b := ColumnBlocks(firstRow, nRows, cs);
    ColumnBlocksTile(firstRow, nRows, cs);
    MulLeIffLeDiv(k, nRows, cs);
    assert b[k] == ColumnBlockAt(firstRow, nRows, cs, k);
    assert (k + 1) * cs == k * cs + cs;
  }


  // ---------------------------------------------------------------------
  // Rectangular blocks

  /** One physical read of a rectangular block: `rows` rows from table row `row`. */
  datatype RowBlock = RowBlock(row: nat, rows: nat)

  /** First row of block `k`: `startRow` itself, then the chunk-aligned rows
      after it. */
  function GridStart(startRow: nat, cs: nat, k: nat): nat
    requires 1 <= cs
  {
    Max(startRow, (startRow / cs + k) * cs)
  }

  /** Block `k` runs from its first row to the next chunk boundary counted
      from `startRow` (not from its own first row), or to `endRow`. */
  function GridBlockAt(startRow: nat, endRow: nat, cs: nat, k: nat): RowBlock
    requires 1 <= cs && startRow <= GridStart(startRow, cs, k) <= endRow
  {
    var first := GridStart(startRow, cs, k);
    NextMultiple(first, cs);
    RowBlock(first, Min((first / cs + 1) * cs - startRow, endRow - first + 1))
  }

  /** Block `k` is issued exactly while its first row is not past `endRow`. */
  lemma GridStartWithin(startRow: nat, endRow: nat, cs: nat, k: nat)
    requires 1 <= cs && startRow <= endRow
    ensures startRow / cs <= endRow / cs
    ensures startRow <= GridStart(startRow, cs, k)
    ensures k == 0 ==> GridStart(startRow, cs, k) == startRow
    ensures GridStart(startRow, cs, k) <= endRow <==> k < endRow / cs - startRow / cs + 1
  {
    MulLeIffLeDiv(startRow / cs, endRow, cs);
    NextMultiple(startRow, cs);
    if k > 0 {
      MulMono(startRow / cs + 1, startRow / cs + k, cs);
      MulLeIffLeDiv(startRow / cs + k, endRow, cs);
    }
  }

  /** The reads of a rectangular block from block `k` on, in the order they
      are issued: block `k`, then the rest, for as long as the block's first
      row is not past `endRow`. */
  function GridBlocksFrom(startRow: nat, endRow: nat, cs: nat, k: nat): (b: seq<RowBlock>)
    requires 1 <= cs && startRow <= endRow
    ensures |b| == if k < endRow / cs - startRow / cs + 1 then endRow / cs - startRow / cs + 1 - k else 0
    decreases endRow / cs - startRow / cs + 1 - k
  {
    if endRow / cs - startRow / cs + 1 <= k then []
    else
      GridStartWithin(startRow, endRow, cs, k);
      [GridBlockAt(startRow, endRow, cs, k)] + GridBlocksFrom(startRow, endRow, cs, k + 1)
  }

  /** The reads of a rectangular block, in the order they are issued. */
  function GridBlocks(startRow: nat, endRow: nat, cs: nat): (b: seq<RowBlock>)
    requires 1 <= cs && startRow <= endRow
    ensures |b| == endRow / cs - startRow / cs + 1
  {
    GridBlocksFrom(startRow, endRow, cs, 0)
  }

  /** Entry `i` of the reads from block `k` on is block `k + i`. */
  lemma {:induction false} GridBlocksFromAt(startRow: nat, endRow: nat, cs: nat, k: nat, i: nat)
    requires 1 <= cs && startRow <= endRow && k + i < endRow / cs - startRow / cs + 1
    ensures startRow <= GridStart(startRow, cs, k + i) <= endRow
    ensures GridBlocksFrom(startRow, endRow, cs, k)[i] == GridBlockAt(startRow, endRow, cs, k + i)
    decreases i
  {
    GridStartWithin(startRow, endRow, cs, k + i);
    if i > 0 {
      GridBlocksFromAt(startRow, endRow, cs, k + 1, i - 1);
    }
  }

  /** Read `k` of a rectangular block is block `k`. */
  lemma GridBlockOf(startRow: nat, endRow: nat, cs: nat, k: nat)
    requires 1 <= cs && startRow <= endRow && k < endRow / cs - startRow / cs + 1
    ensures startRow <= GridStart(startRow, cs, k) <= endRow
    ensures GridBlocks(startRow, endRow, cs)[k] == GridBlockAt(startRow, endRow, cs, k)
  {
    GridBlocksFromAt(startRow, endRow, cs, 0, k);
  }

  /** The first block starts at `startRow` and stops at the first chunk
      boundary after it (or at `endRow`). */
  lemma GridFirstBlock(startRow: nat, endRow: nat, cs: nat)
    requires 1 <= cs && startRow <= endRow
    ensures var b := GridBlocks(startRow, endRow, cs);
      && b[0].row == startRow
      && b[0].row + b[0].rows <= (startRow / cs + 1) * cs
  {
    GridStartWithin(startRow, endRow, cs, 0);
    GridBlockOf(startRow, endRow, cs, 0);
    NextMultiple(startRow, cs);
  }

  /** Every later block starts on a multiple of the chunk size, and the
      starts increase strictly. */
  lemma GridBlocksAligned(startRow: nat, endRow: nat, cs: nat, k: nat)
    requires 1 <= cs && startRow <= endRow
    requires 1 <= k < |GridBlocks(startRow, endRow, cs)|
    ensures var b := GridBlocks(startRow, endRow, cs);
      b[k].row % cs == 0 && b[k - 1].row < b[k].row
  {
    var b := GridBlocks(startRow, endRow, cs);
    NextMultiple(startRow, cs);
    var q := startRow / cs;
    GridBlockOf(startRow, endRow, cs, k);
    GridBlockOf(startRow, endRow, cs, k - 1);
    MulMono(q + 1, q + k, cs);
    MulAdd(q + k - 1, 1, cs);
    assert b[k].row == (q + k) * cs;
    ModMultiple(q + k, cs);
  }

  /** Every block is non-empty and lies inside `startRow .. endRow`, and the
      next block starts no later than the row after it: no row is skipped. */
  lemma GridBlocksInside(startRow: nat, endRow: nat, cs: nat, k: nat)
    requires 1 <= cs && startRow <= endRow
    requires k < |GridBlocks(startRow, endRow, cs)|
    ensures var b := GridBlocks(startRow, endRow, cs);
      && startRow <= b[k].row
      && 1 <= b[k].rows
      && b[k].row + b[k].rows <= endRow + 1
      && (k + 1 < |b| ==> b[k + 1].row <= b[k].row + b[k].rows)
      && (k + 1 == |b| ==> b[k].row + b[k].rows == endRow + 1)
  {
    var b := GridBlocks(startRow, endRow, cs);
    var q := startRow / cs;
    var first := GridStart(startRow, cs, k);
    var next := GridStart(startRow, cs, k + 1);
    GridBlockOf(startRow, endRow, cs, k);
    GridStartWithin(startRow, endRow, cs, k + 1);
    NextMultiple(startRow, cs);
    NextMultiple(first, cs);
    // the block ends at the chunk boundary after `first` or at `endRow`,
    // and that boundary is where the next block starts
    assert next == (q + k + 1) * cs by {
      MulMono(q + 1, q + k + 1, cs);
    }
    if k == 0 {
      assert first == startRow;
    } else {
      MulMono(q + 1, q + k, cs);
      assert first == (q + k) * cs;
      ModMultiple(q + k, cs);
      assert (q + k + 1) * cs == (q + k) * cs + cs;
    }
    assert (first / cs + 1) * cs == next;
    if k + 1 < |b| {
      GridBlockOf(startRow, endRow, cs, k + 1);
    }
  }

  /** The blocks jointly cover every row of the request. */
  lemma GridBlocksCover(startRow: nat, endRow: nat, cs: nat, r: nat)
    requires 1 <= cs && startRow <= r <= endRow
    ensures var b := GridBlocks(startRow, endRow, cs);
      exists k :: 0 <= k < |b| && b[k].row <= r < b[k].row + b[k].rows
  {
    var b := GridBlocks(startRow, endRow, cs);
    var k := 0;
    GridFirstBlock(startRow, endRow, cs);
    GridBlocksInside(startRow, endRow, cs, 0);
    while b[k].row + b[k].rows <= r
      invariant 0 <= k < |b|
      invariant b[k].row <= r
      decreases |b| - k
    {
      GridBlocksInside(startRow, endRow, cs, k);
      k := k + 1;
      GridBlocksInside(startRow, endRow, cs, k);
    }
  }

  /** Chunk size 2, rows 1..4: the reads are row 1, rows 2..4 and row 4.  The
      second read crosses the chunk boundary at row 4 and overlaps the third. */
  lemma GridBlocksOverlapExample()
    ensures GridBlocks(1, 4, 2) == [RowBlock(1, 1), RowBlock(2, 3), RowBlock(4, 1)]
  {
    var b := GridBlocks(1, 4, 2);
    assert |b| == 3;
    GridBlockOf(1, 4, 2, 0);
    GridBlockOf(1, 4, 2, 1);
    GridBlockOf(1, 4, 2, 2);
  }

  // ---------------------------------------------------------------------
  // Memory dataspace of the rectangular reads

  function Product(dims: seq<nat>): nat
  {
    if dims == [] then 1 else dims[0] * Product(dims[1..])
  }

  /** The memory dataspace a rectangular read goes through: one dimension when
      a chunk is a single row or the block a single column, otherwise chunk
      rows by columns.  Either way it holds one chunk of the block. */
  function MemShape(cs: nat, nCols: nat): (dims: seq<nat>)
    ensures 1 <= |dims| <= 2
    ensures |dims| == 1 <==> cs == 1 || nCols == 1
    ensures |dims| == 2 ==> dims[1] == nCols
    ensures Product(dims) == cs * nCols
  {
    if cs == 1 then [nCols]
    else if nCols == 1 then [cs]
    else assert Product([cs, nCols][1..]) == nCols; [cs, nCols]
  }

  /** Elements selected in the memory dataspace when a block of `rows` rows is
      read: a two-dimensional space is reselected to exactly that block, a
      one-dimensional one keeps its full extent. */
  function MemSelected(dims: seq<nat>, rows: nat, nCols: nat): nat
  {
    if |dims| > 1 then rows * nCols else Product(dims)
  }

  /** The physical read of one block of a rectangular read of columns
      `startCol .. startCol + nCols - 1` through memory space `dims`. */
  function GridRead(blk: RowBlock, startCol: nat, nCols: nat, dims: seq<nat>): PhysicalRead
  {
    PhysicalRead(Slab(blk.row, blk.rows, startCol, nCols), MemSelected(dims, blk.rows, nCols))
  }

  /** One physical read per block, in the blocks' order. */
  function GridReadsOf(blocks: seq<RowBlock>, startCol: nat, nCols: nat, dims: seq<nat>): (r: seq<PhysicalRead>)
    ensures |r| == |blocks|
  {
    if blocks == [] then []
    else [GridRead(blocks[0], startCol, nCols, dims)] + GridReadsOf(blocks[1..], startCol, nCols, dims)
  }

  /** Read `k` is the read of block `k`. */
  lemma {:induction false} GridReadsOfAt(blocks: seq<RowBlock>, startCol: nat, nCols: nat, dims: seq<nat>, k: nat)
    requires k < |blocks|
    ensures GridReadsOf(blocks, startCol, nCols, dims)[k] == GridRead(blocks[k], startCol, nCols, dims)
    decreases k
  {
    if k > 0 {
      GridReadsOfAt(blocks[1..], startCol, nCols, dims, k - 1);
    }
  }

  /** The physical reads of a rectangular block of columns `startCol ..
      startCol + nCols - 1`. */
  function GridReads(startRow: nat, endRow: nat, startCol: nat, nCols: nat, cs: nat): (r: seq<PhysicalRead>)
    requires 1 <= cs && startRow <= endRow
    ensures |r| == |GridBlocks(startRow, endRow, cs)|
  {
    GridReadsOf(GridBlocks(startRow, endRow, cs), startCol, nCols, MemShape(cs, nCols))
  }

  /** Read `k` of a rectangular block on its own: the rows it covers, how it
      meets the next read or the end of the block, and the memory elements
      it selects. */
  lemma GridReadAt(startRow: nat, endRow: nat, startCol: nat, nCols: nat, cs: nat, k: nat)
    requires 1 <= cs && startRow <= endRow
    requires k < |GridBlocks(startRow, endRow, cs)|
    ensures startRow <= GridStart(startRow, cs, k) <= endRow
    ensures GridStart(startRow, cs, k) < (GridStart(startRow, cs, k) / cs + 1) * cs
    ensures var first := GridStart(startRow, cs, k);
      var rows := Min((first / cs + 1) * cs - startRow, endRow - first + 1);
      && 1 <= rows && first + rows <= endRow + 1
      && GridReads(startRow, endRow, startCol, nCols, cs)[k]
         == PhysicalRead(Slab(first, rows, startCol, nCols), MemSelected(MemShape(cs, nCols), rows, nCols))
      && (k + 1 < |GridBlocks(startRow, endRow, cs)| ==>
            startRow <= GridStart(startRow, cs, k + 1) <= first + rows)
      && (k + 1 == |GridBlocks(startRow, endRow, cs)| ==> first + rows == endRow + 1)
  {
    var b := GridBlocks(startRow, endRow, cs);
    GridStartWithin(startRow, endRow, cs, k);
    GridStartWithin(startRow, endRow, cs, k + 1);
    GridBlocksInside(startRow, endRow, cs, k);
    NextMultiple(GridStart(startRow, cs, k), cs);
    GridBlockOf(startRow, endRow, cs, k);
    if k + 1 < |b| {
      GridBlockOf(startRow, endRow, cs, k + 1);
    }
    GridReadsOfAt(b, startCol, nCols, MemShape(cs, nCols), k);
  }

  /** With a two-dimensional memory space every read selects as many memory
      elements as file elements. */
  lemma GridReadsMatchInRankTwo(startRow: nat, endRow: nat, startCol: nat, nCols: nat, cs: nat, k: nat)
    requires 1 <= cs && startRow <= endRow && |MemShape(cs, nCols)| == 2
    requires k < |GridReads(startRow, endRow, startCol, nCols, cs)|
    ensures var r := GridReads(startRow, endRow, startCol, nCols, cs)[k];
      r.memElements == r.file.rows * r.file.cols
  {
    GridReadsOfAt(GridBlocks(startRow, endRow, cs), startCol, nCols, MemShape(cs, nCols), k);
  }

  /** A single column, rows 5..7, no chunking: the memory space keeps three
      elements while the first read selects one row of the file. */
  lemma SingleColumnSelectionDiffers()
    ensures var r := GridReads(5, 7, 0, 1, 3);
      r[0].file == Slab(5, 1, 0, 1) && r[0].memElements == 3
  {
    var b := GridBlocks(5, 7, 3);
    GridBlockOf(5, 7, 3, 0);
    GridReadsOfAt(b, 0, 1, MemShape(3, 1), 0);
  }

  /** Three columns, rows 0..5, chunks of 2 rows: the memory space is 2 x 3,
      but the second block runs from row 2 to row 5, so the memory selection
      is reselected to 4 x 3 elements, more than the space holds. */
  lemma RankTwoSelectionExceedsSpace()
    ensures |MemShape(2, 3)| == 2 && Product(MemShape(2, 3)) == 6
    ensures var r := GridReads(0, 5, 0, 3, 2);
      r[1] == PhysicalRead(Slab(2, 4, 0, 3), 12) && Product(MemShape(2, 3)) < r[1].memElements
  {
    var b := GridBlocks(0, 5, 2);
    GridBlockOf(0, 5, 2, 1);
    GridReadsOfAt(b, 0, 3, MemShape(2, 3), 1);
  }
}
