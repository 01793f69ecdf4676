/** The event row index: one event identifier per table row, and the search
    for the rows that hold one event.  The search scans from both ends of the
    map at once up to a depth, stops at the first row (the anchor) holding the
    event, and walks away from the end it came from to the other edge of the
    event's run of rows. */
module EventIndex {

  /** Where the two-ended scan first meets the event: on the front scan, on
      the back scan, or nowhere within the scanned depth. */
  datatype Anchor = Miss | Front(index: nat) | Back(index: nat)

  /** Step `c` of the scan finds nothing: neither row `c` nor row
      `|m| - 1 - c` holds the event. */
  predicate Unmatched(m: seq<nat>, e: nat, c: nat)
    requires c < |m|
  {
    m[c] != e && m[|m| - 1 - c] != e
  }

  /** The scan from step `c` on: step `c` looks at row `c`, then at row
      `|m| - 1 - c`. */
  function ScanFrom(m: seq<nat>, e: nat, depth: nat, c: nat): (a: Anchor)
    requires depth <= |m|
    ensures a.Miss? ==> forall j :: c <= j < depth ==> Unmatched(m, e, j)
    ensures a.Front? ==>
      && c <= a.index < depth && m[a.index] == e
      && forall j :: c <= j < a.index ==> Unmatched(m, e, j)
    ensures a.Back? ==>
      && a.index < |m| && c <= |m| - 1 - a.index < depth && m[a.index] == e
      && m[|m| - 1 - a.index] != e
      && forall j :: c <= j < |m| - 1 - a.index ==> Unmatched(m, e, j)
    decreases depth - c
  {
    if c >= depth then Miss
    else if m[c] == e then Front(c)
    else if m[|m| - 1 - c] == e then Back(|m| - 1 - c)
    else ScanFrom(m, e, depth, c + 1)
  }

  /** The last row of the run of `e` that contains row `i`, walking forward. */
  function RunEnd(m: seq<nat>, e: nat, i: nat): (r: nat)
    requires i < |m| && m[i] == e
    ensures i <= r < |m|
    ensures forall j :: i <= j <= r ==> m[j] == e
    ensures r + 1 < |m| ==> m[r + 1] != e
    decreases |m| - i
  {
    if i + 1 < |m| && m[i + 1] == e then RunEnd(m, e, i + 1) else i
  }

  /** The first row of the run of `e` that contains row `i`, walking backward. */
  function RunStart(m: seq<nat>, e: nat, i: nat): (r: nat)
    requires i < |m| && m[i] == e
    ensures r <= i
    ensures forall j :: r <= j <= i ==> m[j] == e
    ensures 0 < r ==> m[r - 1] != e
    decreases i
  {
    if 0 < i && m[i - 1] == e then RunStart(m, e, i - 1) else i
  }

  /** The inclusive row range the search reports for event `e`, or (-1, -1). */
  function Edges(m: seq<nat>, e: nat, depth: nat): (int, int)
    requires depth <= |m|
  {
    match ScanFrom(m, e, depth, 0)
    case Miss => (-1, -1)
    case Front(i) => (i as int, RunEnd(m, e, i) as int)
    case Back(j) => (RunStart(m, e, j) as int, j as int)
  }

  /** The depth the source scans to: half the map, rounded down, so the middle
      row of an odd-length map is never looked at. */
  function WrittenScanDepth(n: nat): nat { n / 2 }

  /** The depth that reaches every row: half the map, rounded up. */
  function ScanDepth(n: nat): nat { (n + 1) / 2 }

  /** Every row with event `e` belongs to one unbroken run of rows. */
  ghost predicate Contiguous(m: seq<nat>, e: nat)
  {
    forall i, j, k :: 0 <= i <= j <= k < |m| && m[i] == e && m[k] == e ==> m[j] == e
  }

  /** The set of event identifiers in the map. */
  function Values(m: seq<nat>): set<nat>
  {
    set x | x in m
  }

  /** The search on a map: scan from both ends, then walk to the other edge.
      The walk tests the row index before reading the row. */
  method ScanEdges(m: seq<nat>, e: nat, depth: nat) returns (first: int, last: int)
    requires depth <= |m|
    ensures (first, last) == Edges(m, e, depth)
  {
    first, last := -1, -1;
    var counter := 0;
    while counter < depth
      invariant counter <= depth
      invariant first == -1 && last == -1
      invariant ScanFrom(m, e, depth, 0) == ScanFrom(m, e, depth, counter)
    {
      if m[counter] == e {
        first := counter;
        break;
      }
      if m[|m| - counter - 1] == e {
        last := |m| - counter - 1;
        break;
      }
      counter := counter + 1;
    }

    if first == -1 && last == -1 {
      return;
    }

    var fromFront := first >= 0;
    var step := if fromFront then 1 else -1;
    var start := if fromFront then first else last;
    assert 0 <= start < |m| && m[start] == e;
    var otherEnd := start;
    while 0 <= otherEnd < |m| && m[otherEnd] == e
      invariant fromFront ==> start <= otherEnd <= RunEnd(m, e, start) + 1
      invariant !fromFront ==> RunStart(m, e, start) - 1 <= otherEnd <= start
      decreases if fromFront then |m| - otherEnd else otherEnd + 1
    {
      otherEnd := otherEnd + step;
    }
    otherEnd := otherEnd - step;
    if fromFront {
      last := otherEnd;
    } else {
      first := otherEnd;
    }

    // The source's consistency check before its abort: it never fails.
    if first < 0 || last < 0 || last < first {
      assert false;
    }
  }

  /** The search reports (-1, -1) exactly when no scanned row holds the event. */
  lemma EdgesMiss(m: seq<nat>, e: nat, depth: nat)
    requires depth <= |m|
    ensures Edges(m, e, depth) == (-1, -1) <==> forall c :: 0 <= c < depth ==> Unmatched(m, e, c)
  {
    var a := ScanFrom(m, e, depth, 0);
    if a.Front? {
      assert !Unmatched(m, e, a.index);
    } else if a.Back? {
      assert !Unmatched(m, e, |m| - 1 - a.index);
    }
  }

  /** A reported range is a maximal run of the event: it lies inside the map,
      every row in it holds the event, and the rows around it do not. */
  lemma EdgesFound(m: seq<nat>, e: nat, depth: nat)
    requires depth <= |m|
    requires Edges(m, e, depth) != (-1, -1)
    ensures var (first, last) := Edges(m, e, depth);
      && 0 <= first <= last < |m|
      && (forall i :: first <= i <= last ==> m[i] == e)
      && (0 < first ==> m[first - 1] != e)
      && (last + 1 < |m| ==> m[last + 1] != e)
  {
    var a := ScanFrom(m, e, depth, 0);
    if a.Front? && 0 < a.index {
      assert Unmatched(m, e, a.index - 1);
    } else if a.Back? && a.index + 1 < |m| {
      assert Unmatched(m, e, |m| - 1 - (a.index + 1));
    }
  }

  /** When the event's rows are contiguous, a reported range holds every row
      of the event and no other. */
  lemma EdgesContiguous(m: seq<nat>, e: nat, depth: nat)
    requires depth <= |m| && Contiguous(m, e)
    requires Edges(m, e, depth) != (-1, -1)
    ensures var (first, last) := Edges(m, e, depth);
      forall i :: 0 <= i < |m| ==> (m[i] == e <==> first <= i <= last)
  {
    EdgesFound(m, e, depth);
  }

  /** Scanning to half the map rounded up finds every event in the map. */
  lemma ScanDepthFindsEvery(m: seq<nat>, e: nat)
    ensures Edges(m, e, ScanDepth(|m|)) != (-1, -1) <==> e in Values(m)
  {
    EdgesMiss(m, e, ScanDepth(|m|));
    if e in Values(m) {
      var i :| 0 <= i < |m| && m[i] == e;
      if i < ScanDepth(|m|) {
        assert !Unmatched(m, e, i);
      } else {
        assert !Unmatched(m, e, |m| - 1 - i);
      }
    }
  }

  /** As written, an event whose only row is the middle row of an odd-length
      map is reported absent. */
  lemma WrittenScanMissesMiddleRow(m: seq<nat>, e: nat)
    requires |m| % 2 == 1
    requires forall i :: 0 <= i < |m| ==> (m[i] == e <==> i == |m| / 2)
    ensures e in Values(m)
    ensures Edges(m, e, WrittenScanDepth(|m|)) == (-1, -1)
  {
    assert m[|m| / 2] == e;
    forall c | 0 <= c < WrittenScanDepth(|m|)
      ensures Unmatched(m, e, c)
    {
      assert m[|m| - 1 - c] != e;
    }
    EdgesMiss(m, e, WrittenScanDepth(|m|));
  }

  /** The smallest instances: on [5, 7, 9] the written search reports 7
      absent, and on a one-row map it never finds the map's own event. */
  lemma WrittenScanMissesMiddleEvent()
    ensures 7 in Values([5, 7, 9]) && Edges([5, 7, 9], 7, WrittenScanDepth(3)) == (-1, -1)
    ensures 4 in Values([4]) && Edges([4], 4, WrittenScanDepth(1)) == (-1, -1)
  {
    assert [5, 7, 9][1] == 7;
    assert [4][0] == 4;
  }

  /** Every event of the map gets a range that is a maximal run of its rows. */
  lemma EveryEventHasRange(m: seq<nat>, e: nat)
    requires e in Values(m)
    ensures var (first, last) := Edges(m, e, ScanDepth(|m|));
      && 0 <= first <= last < |m|
      && (forall i :: first <= i <= last ==> m[i] == e)
      && (0 < first ==> m[first - 1] != e)
      && (last + 1 < |m| ==> m[last + 1] != e)
  {
    ScanDepthFindsEvery(m, e);
    EdgesFound(m, e, ScanDepth(|m|));
  }

  /** The map [5, 5, 5, 7, 7, 9]: events {5, 7, 9}, 7 on rows 3..4, 9 on row 5. */
  lemma ExampleMap()
    ensures Values([5, 5, 5, 7, 7, 9]) == {5, 7, 9}
    ensures Edges([5, 5, 5, 7, 7, 9], 7, ScanDepth(6)) == (3, 4)
    ensures Edges([5, 5, 5, 7, 7, 9], 9, ScanDepth(6)) == (5, 5)
    ensures Edges([5, 5, 5, 7, 7, 9], 5, ScanDepth(6)) == (0, 2)
  {
    var m := [5, 5, 5, 7, 7, 9];
    assert m[0] == 5 && m[3] == 7 && m[5] == 9;
    assert ScanFrom(m, 7, 3, 0) == Back(4);
    assert RunStart(m, 7, 4) == 3;
    assert ScanFrom(m, 5, 3, 0) == Front(0);
    assert RunEnd(m, 5, 0) == 2;
  }
}
