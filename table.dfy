/** The chunked store behind the summary reader, seen as an immutable
    row-major table of cells that is read one rectangular hyperslab at a time.
    The storage library itself (files, datasets, dataspaces) is not modelled:
    a physical read is a copy of the selected cells. */
module Table {

  /** Why a read of the store produced no value. */
  datatype ReadError =
    | EmptyExtent  // the last row was defaulted on a table without rows
    | OutOfRange   // a selection reaches past the table's extent

  /** A value or the error that stopped its computation; usable with `:-`. */
  datatype Result<+T> = Success(value: T) | Failure(error: ReadError)
  {
    predicate IsFailure() { Failure? }

    function PropagateFailure<U>(): Result<U>
      requires Failure?
    {
      Failure(error)
    }

    function Extract(): T
      requires Success?
    {
      value
    }
  }

  /** A hyperslab: `rows` rows starting at `row`, `cols` columns starting at `col`. */
  datatype Slab = Slab(row: nat, rows: nat, col: nat, cols: nat)

  /** One physical read issued to the store: the selection in the file and the
      number of elements selected in the memory dataspace it is read into. */
  datatype PhysicalRead = PhysicalRead(file: Slab, memElements: nat)

  /** The reads of `plan` that are issued when every read is tried in turn
      and the first one outside the extent ends the sequence. */
  function Issued(plan: seq<PhysicalRead>, numRows: nat, numCols: nat): (r: seq<PhysicalRead>)
    ensures |r| <= |plan| && r == plan[..|r|]
  {
    if plan == [] then []
    else if !Within(plan[0].file, numRows, numCols) then [plan[0]]
    else [plan[0]] + Issued(plan[1..], numRows, numCols)
  }

  /** When the reads before `k` lie inside the extent, what is issued is the
      whole plan if `k` is its end, and the reads up to `k` if read `k` lies
      outside. */
  lemma {:induction false} IssuedUpTo(plan: seq<PhysicalRead>, numRows: nat, numCols: nat, k: nat)
    requires k <= |plan|
    requires forall i :: 0 <= i < k ==> Within(plan[i].file, numRows, numCols)
    ensures k == |plan| ==> Issued(plan, numRows, numCols) == plan
    ensures k < |plan| && !Within(plan[k].file, numRows, numCols) ==>
      Issued(plan, numRows, numCols) == plan[..k + 1]
    decreases k
  {
    if 0 < k {
      IssuedUpTo(plan[1..], numRows, numCols, k - 1);
      assert plan == [plan[0]] + plan[1..];
      if k < |plan| {
        assert plan[..k + 1] == [plan[0]] + plan[1..][..k];
      }
    }
  }

  /** A log that grew by the reads of `plan` up to and including the first
      one outside the extent, or by all of them when there is none, grew by
      exactly the issued reads. */
  lemma IssuedLog(before: seq<PhysicalRead>, after: seq<PhysicalRead>, plan: seq<PhysicalRead>,
                  numRows: nat, numCols: nat, k: nat)
    requires k <= |plan|
    requires forall i :: 0 <= i < k ==> Within(plan[i].file, numRows, numCols)
    requires k < |plan| ==> !Within(plan[k].file, numRows, numCols) && after == before + plan[..k + 1]
    requires k == |plan| ==> after == before + plan[..k]
    ensures after == before + Issued(plan, numRows, numCols)
  {
    IssuedUpTo(plan, numRows, numCols, k);
    if k == |plan| {
      assert plan[..k] == plan;
    }
  }

  /** The first `k + 1` reads of a plan are its first `k` and read `k`. */
  lemma PrefixStep(plan: seq<PhysicalRead>, k: nat)
    requires k < |plan|
    ensures plan[..k + 1] == plan[..k] + [plan[k]]
  {
  }

  /** Every row of `t` holds `numCols` cells. */
  ghost predicate Shaped<V>(t: seq<seq<V>>, numCols: nat)
  {
    forall r :: 0 <= r < |t| ==> |t[r]| == numCols
  }

  /** The selection lies inside a `numRows` x `numCols` extent. */
  predicate Within(s: Slab, numRows: nat, numCols: nat)
  {
    s.row + s.rows <= numRows && s.col + s.cols <= numCols
  }

  /** The cells of rows `row .. row + rows - 1`, columns `col .. col + cols - 1`
      of `t`, row after row. */
  function Cells<V>(t: seq<seq<V>>, numCols: nat, row: nat, rows: nat, col: nat, cols: nat): (r: seq<V>)
    requires Shaped(t, numCols) && row + rows <= |t| && col + cols <= numCols
    ensures |r| == rows * cols
    decreases rows
  {
    if rows == 0 then [] else t[row][col .. col + cols] + Cells(t, numCols, row + 1, rows - 1, col, cols)
  }

  /** The cells of a selection in row-major order: what a read of `s` delivers. */
  function Rect<V>(t: seq<seq<V>>, numCols: nat, s: Slab): (r: seq<V>)
    requires Shaped(t, numCols) && Within(s, |t|, numCols)
    ensures |r| == s.rows * s.cols
  {
    Cells(t, numCols, s.row, s.rows, s.col, s.cols)
  }

  /** Cell (i, j) of the rows sits at offset i * cols + j. */
  lemma {:induction false} CellsAt<V>(t: seq<seq<V>>, numCols: nat, row: nat, rows: nat, col: nat, cols: nat,
                                      i: nat, j: nat)
    requires Shaped(t, numCols) && row + rows <= |t| && col + cols <= numCols
    requires i < rows && j < cols
    ensures i * cols + j < |Cells(t, numCols, row, rows, col, cols)|
    ensures Cells(t, numCols, row, rows, col, cols)[i * cols + j] == t[row + i][col + j]
    decreases i
  {
    MulMono(i + 1, rows, cols);
    MulAdd(i, 1, cols);
    if i > 0 {
      CellsAt(t, numCols, row + 1, rows - 1, col, cols, i - 1, j);
      MulAdd(i - 1, 1, cols);
      assert i * cols + j == cols + ((i - 1) * cols + j);
    }
  }

  /** Cell (i, j) of the selection sits at offset i * cols + j of the read. */
  lemma RectAt<V>(t: seq<seq<V>>, numCols: nat, s: Slab, i: nat, j: nat)
    requires Shaped(t, numCols) && Within(s, |t|, numCols)
    requires i < s.rows && j < s.cols
    ensures i * s.cols + j < |Rect(t, numCols, s)|
    ensures Rect(t, numCols, s)[i * s.cols + j] == t[s.row + i][s.col + j]
  {
    CellsAt(t, numCols, s.row, s.rows, s.col, s.cols, i, j);
  }

  /** Taking `a` rows and then the rest is taking them all at once. */
  lemma {:induction false} CellsSplit<V>(t: seq<seq<V>>, numCols: nat, row: nat, rows: nat, col: nat, cols: nat,
                                         a: nat)
    requires Shaped(t, numCols) && row + rows <= |t| && col + cols <= numCols
    requires a <= rows
    ensures Cells(t, numCols, row, rows, col, cols)
         == Cells(t, numCols, row, a, col, cols) + Cells(t, numCols, row + a, rows - a, col, cols)
    decreases a
  {
    if a > 0 {
      CellsSplit(t, numCols, row + 1, rows - 1, col, cols, a - 1);
      AppendAssoc(t[row][col .. col + cols], Cells(t, numCols, row + 1, a - 1, col, cols),
                  Cells(t, numCols, row + a, rows - a, col, cols));
    } else {
      assert Cells(t, numCols, row, 0, col, cols) == [];
    }
  }

  /** Reading `a` rows and then the rest is reading them all at once. */
  lemma RectSplit<V>(t: seq<seq<V>>, numCols: nat, s: Slab, a: nat)
    requires Shaped(t, numCols) && Within(s, |t|, numCols)
    requires a <= s.rows
    ensures Rect(t, numCols, s)
         == Rect(t, numCols, s.(rows := a)) + Rect(t, numCols, s.(row := s.row + a, rows := s.rows - a))
  {
    CellsSplit(t, numCols, s.row, s.rows, s.col, s.cols, a);
  }

  /** Concatenation is associative. */
  lemma AppendAssoc<V>(x: seq<V>, y: seq<V>, z: seq<V>)
    ensures x + (y + z) == (x + y) + z
  {
  }

  /** The rows `a .. a + b` of a read are the read of those rows alone. */
  lemma RectSlice<V>(t: seq<seq<V>>, numCols: nat, s: Slab, a: nat, b: nat)
    requires Shaped(t, numCols) && Within(s, |t|, numCols)
    requires a + b <= s.rows
    ensures a * s.cols + b * s.cols <= |Rect(t, numCols, s)|
    ensures Rect(t, numCols, s)[a * s.cols .. a * s.cols + b * s.cols]
         == Rect(t, numCols, s.(row := s.row + a, rows := b))
  {
    MulAdd(a, b, s.cols);
    MulMono(a + b, s.rows, s.cols);
    var tail := s.(row := s.row + a, rows := s.rows - a);
    RectSplit(t, numCols, s, a);
    RectSplit(t, numCols, tail, b);
    assert tail.(rows := b) == s.(row := s.row + a, rows := b);
  }

  /** Writing a one-column read into `buf` from `offset` on puts row `row + i`
      of the column at `offset + i` and leaves every other cell alone. */
  lemma RectColumnWrite<V>(t: seq<seq<V>>, numCols: nat, s: Slab, offset: nat, buf: seq<V>, out: seq<V>)
    requires Shaped(t, numCols) && Within(s, |t|, numCols) && s.cols == 1
    requires offset + s.rows <= |buf|
    requires out == buf[..offset] + Rect(t, numCols, s) + buf[offset + s.rows * s.cols ..]
    ensures |out| == |buf|
    ensures forall i :: 0 <= i < |buf| && !(offset <= i < offset + s.rows) ==> out[i] == buf[i]
    ensures forall i :: offset <= i < offset + s.rows ==> out[i] == t[s.row + (i - offset)][s.col]
  {
    var r := Rect(t, numCols, s);
    assert |r| == s.rows by {
      assert s.rows * s.cols == s.rows;
    }
    assert out == buf[..offset] + r + buf[offset + s.rows ..];
    forall i | 0 <= i < |buf| && !(offset <= i < offset + s.rows)
      ensures out[i] == buf[i]
    {
    }
    forall i | offset <= i < offset + s.rows
      ensures out[i] == t[s.row + (i - offset)][s.col]
    {
      RectAt(t, numCols, s, i - offset, 0);
      assert out[i] == r[i - offset];
    }
  }

  /** The first `s.rows * s.cols` cells of `buf` hold the read of `s`, which
      lies inside the extent. */
  ghost predicate Holds<V>(t: seq<seq<V>>, numCols: nat, buf: seq<V>, s: Slab)
    requires Shaped(t, numCols)
  {
    && Within(s, |t|, numCols)
    && s.rows * s.cols <= |buf|
    && buf[..s.rows * s.cols] == Rect(t, numCols, s)
  }

  /** The first `h` rows of a read are the read of those rows alone. */
  lemma RectPrefix<V>(t: seq<seq<V>>, numCols: nat, s: Slab, h: nat)
    requires Shaped(t, numCols) && Within(s, |t|, numCols)
    requires h <= s.rows
    ensures h * s.cols <= |Rect(t, numCols, s)|
    ensures Rect(t, numCols, s)[..h * s.cols] == Rect(t, numCols, s.(rows := h))
  {
    RectSplit(t, numCols, s, h);
    MulMono(h, s.rows, s.cols);
  }

  /** Writing the read of rows `row + a .. row + a + b` of a block at element
      `a * cols` of a buffer whose first `h` rows hold the block's read leaves
      the first `max(h, a + b)` rows holding it, provided the write starts
      inside the rows already held. */
  lemma RectOverlay<V>(t: seq<seq<V>>, numCols: nat, row: nat, col: nat, cols: nat,
                       h: nat, a: nat, b: nat, lo: nat, len: nat, before: seq<V>, after: seq<V>)
    requires Shaped(t, numCols)
    requires a <= h
    requires 0 < h ==> Holds(t, numCols, before, Slab(row, h, col, cols))
    requires Within(Slab(row + a, b, col, cols), |t|, numCols)
    requires lo == a * cols && len == b * cols && lo + len <= |before|
    requires after == before[..lo] + Rect(t, numCols, Slab(row + a, b, col, cols)) + before[lo + len ..]
    ensures Holds(t, numCols, after, Slab(row, if h < a + b then a + b else h, col, cols))
  {
    var s := Slab(row, if h < a + b then a + b else h, col, cols);
    var prefix := Rect(t, numCols, Slab(row, h, col, cols));
    var mid := Rect(t, numCols, Slab(row + a, b, col, cols));
    MulAdd(a, b, cols);
    MulMono(a, h, cols);
    RectPrefix(t, numCols, s, h);
    assert s.(rows := h) == Slab(row, h, col, cols);
    RectSlice(t, numCols, s, a, b);
    assert s.(row := s.row + a, rows := b) == Slab(row + a, b, col, cols);
    OverlayBounds(h, a, b, s.rows, cols);
    Overlay(before, after, Rect(t, numCols, s), prefix, mid, h * cols, lo, len);
  }

  /** The element offsets of RectOverlay: the write starts inside the held
      rows, and the result is as long as the longer of the two. */
  lemma OverlayBounds(h: nat, a: nat, b: nat, n: nat, cols: nat)
    requires a <= h && n == if h < a + b then a + b else h
    ensures a * cols <= h * cols <= n * cols
    ensures a * cols + b * cols <= n * cols
    ensures n * cols == h * cols || n * cols == a * cols + b * cols
  {
    MulAdd(a, b, cols);
    MulMono(a, h, cols);
    MulMono(h, n, cols);
    MulMono(a + b, n, cols);
  }

  /** The sequence form of RectOverlay, on element offsets: `before` starts
      with the first `h` elements of `whole`, and `after` is `before` with
      elements `a .. a + b` of `whole` written over it. */
  lemma Overlay<V>(before: seq<V>, after: seq<V>, whole: seq<V>, prefix: seq<V>, mid: seq<V>,
                   h: nat, a: nat, b: nat)
    requires a <= h <= |whole| && a + b <= |whole| && (|whole| == h || |whole| == a + b)
    requires h <= |before| && a + b <= |before|
    requires before[..h] == prefix && whole[..h] == prefix
    requires whole[a .. a + b] == mid
    requires after == before[..a] + mid + before[a + b ..]
    ensures |whole| <= |after| && after[..|whole|] == whole
  {
    assert |after| == |before|;
    forall i | 0 <= i < |whole|
      ensures after[i] == whole[i]
    {
      if i < a {
        assert after[i] == before[i] == prefix[i];
      } else if i < a + b {
        assert after[i] == mid[i - a];
      } else {
        assert after[i] == before[i] == prefix[i];
      }
    }
  }

  /** Multiplication distributes over addition. */
  lemma MulAdd(a: nat, b: nat, c: nat)
    ensures 0 <= a * c && 0 <= b * c
    ensures a * c + b * c == (a + b) * c
  {
  }

  /** Multiplying by the same factor keeps the order. */
  lemma MulMono(a: nat, b: nat, c: nat)
    requires a <= b
    ensures a * c <= b * c
  {
  }
}
