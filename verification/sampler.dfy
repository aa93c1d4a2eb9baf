/** Sampling morph targets from rendered text (script.js:105-112).  The
    rendered RGBA buffer is scanned on a stride-6 grid, rows outer and
    columns inner, and every grid point whose alpha byte exceeds 150 is
    emitted. */
module TextSampling {

  /** An integer pixel coordinate. */
  datatype Point = Point(x: int, y: int)

  /** Grid spacing of the scan, in both axes. */
  const Stride: nat := 6

  /** Alpha values strictly above this count as covered by a glyph. */
  const AlphaThreshold: int := 150

  /** Position of the alpha byte of pixel (x, y) in a row-major RGBA buffer
      whose rows are `width` pixels wide. */
  function AlphaIndex(width: nat, x: int, y: int): int
  {
    (y * width + x) * 4 + 3
  }

  /** Whether pixel (x, y) is covered.  A read past the end of the buffer
      yields `undefined` in the source, and `undefined > 150` is false. */
  predicate Covered(data: seq<int>, width: nat, x: int, y: int)
  {
    var i := AlphaIndex(width, x, y);
    0 <= i < |data| && data[i] > AlphaThreshold
  }

  /** The scan of row `y` from column `x` onwards: only covered points of
      that row, from column `x` up to the width. */
  function ScanRow(data: seq<int>, width: nat, y: int, x: int): (r: seq<Point>)
    ensures forall i :: 0 <= i < |r| ==>
      r[i].y == y && x <= r[i].x < width && Covered(data, width, r[i].x, y)
    decreases width - x
  {
    if x >= width then []
    else (if Covered(data, width, x, y) then [Point(x, y)] else [])
         + ScanRow(data, width, y, x + Stride)
  }

  /** The scan of rows `y`, `y + 6`, ... below `height`: only covered
      points inside the canvas, on those rows. */
  function ScanRows(data: seq<int>, width: nat, height: nat, y: int): (r: seq<Point>)
    ensures forall i :: 0 <= i < |r| ==>
      y <= r[i].y < height && 0 <= r[i].x < width && Covered(data, width, r[i].x, r[i].y)
    decreases height - y
  {
    if y >= height then []
    else ScanRow(data, width, y, 0) + ScanRows(data, width, height, y + Stride)
  }

  /** All targets sampled from a `width` by `height` buffer: covered
      points inside the canvas. */
  function Sample(data: seq<int>, width: nat, height: nat): (r: seq<Point>)
    ensures forall i :: 0 <= i < |r| ==>
      0 <= r[i].x < width && 0 <= r[i].y < height && Covered(data, width, r[i].x, r[i].y)
  {
    ScanRows(data, width, height, 0)
  }

  /** A stride-aligned point inside the canvas. */
  predicate OnGrid(p: Point, width: nat, height: nat)
  {
    p.x % Stride == 0 && p.y % Stride == 0 && 0 <= p.x < width && 0 <= p.y < height
  }

  /** Row-major order: earlier row, or same row and earlier column. */
  predicate Before(p: Point, q: Point)
  {
    p.y < q.y || (p.y == q.y && p.x < q.x)
  }

  /** Strictly increasing in row-major order (hence free of repeats). */
  predicate RowMajor(ps: seq<Point>)
  {
    forall i, j :: 0 <= i < j < |ps| ==> Before(ps[i], ps[j])
  }

  /** Number of stride-aligned positions from `from` (inclusive) up to
      `limit` (exclusive). */
  function GridCount(from: int, limit: int): nat
    decreases limit - from
  {
    if from >= limit then 0 else 1 + GridCount(from + Stride, limit)
  }

  /** The count of grid positions is a ceiling division by the stride. */
  lemma {:induction false} GridCountIsCeiling(from: int, limit: int)
    requires from <= limit
    ensures GridCount(from, limit) == (limit - from + Stride - 1) / Stride
    decreases limit - from
  {
    if from < limit {
      if from + Stride < limit {
        GridCountIsCeiling(from + Stride, limit);
      }
    }
  }

  /** Two distinct multiples of the stride are at least a stride apart. */
  lemma NextMultiple(a: int, b: int)
    requires a % Stride == 0 && b % Stride == 0 && a < b
    ensures a + Stride <= b
  {
    assert a == Stride * (a / Stride);
    assert b == Stride * (b / Stride);
  }

  /** Concatenating two row-major runs, the first wholly before the
      second, gives a row-major run. */
  lemma RowMajorAppend(a: seq<Point>, b: seq<Point>)
    requires RowMajor(a) && RowMajor(b)
    requires forall i, j :: 0 <= i < |a| && 0 <= j < |b| ==> Before(a[i], b[j])
    ensures RowMajor(a + b)
  {
    var c := a + b;
    forall i, j | 0 <= i < j < |c|
      ensures Before(c[i], c[j])
    {
      if j < |a| {
      } else if i >= |a| {
        assert c[i] == b[i - |a|] && c[j] == b[j - |a|];
      } else {
        assert c[i] == a[i] && c[j] == b[j - |a|];
      }
    }
  }

  /** Every column the scan of one row emits is stride-aligned. */
  lemma {:induction false} ScanRowAligned(data: seq<int>, width: nat, y: int, x: int)
    requires x % Stride == 0
    ensures forall p :: p in ScanRow(data, width, y, x) ==> p.x % Stride == 0
    decreases width - x
  {
    if x < width {
      ScanRowAligned(data, width, y, x + Stride);
    }
  }

  /** The scan of one row emits every covered grid column from `x` on. */
  lemma {:induction false} ScanRowComplete(data: seq<int>, width: nat, y: int, x: int)
    requires x % Stride == 0
    ensures forall c :: x <= c < width && c % Stride == 0 && Covered(data, width, c, y) ==>
      Point(c, y) in ScanRow(data, width, y, x)
    decreases width - x
  {
    if x < width {
      var head := if Covered(data, width, x, y) then [Point(x, y)] else [];
      var tail := ScanRow(data, width, y, x + Stride);
      ScanRowComplete(data, width, y, x + Stride);
      assert ScanRow(data, width, y, x) == head + tail;
      forall c | x <= c < width && c % Stride == 0 && Covered(data, width, c, y)
        ensures Point(c, y) in head + tail
      {
        if c != x {
          NextMultiple(x, c);
          assert Point(c, y) in tail;
        }
      }
    }
  }

  /** The columns the scan of one row emits strictly increase. */
  lemma {:induction false} ScanRowOrdered(data: seq<int>, width: nat, y: int, x: int)
    ensures RowMajor(ScanRow(data, width, y, x))
    decreases width - x
  {
    if x < width {
      var head := if Covered(data, width, x, y) then [Point(x, y)] else [];
      var tail := ScanRow(data, width, y, x + Stride);
      ScanRowOrdered(data, width, y, x + Stride);
      RowMajorAppend(head, tail);
    }
  }

  /** The scan of one row emits at most one point per grid column. */
  lemma {:induction false} ScanRowBound(data: seq<int>, width: nat, y: int, x: int)
    ensures |ScanRow(data, width, y, x)| <= GridCount(x, width)
    decreases width - x
  {
    if x < width {
      ScanRowBound(data, width, y, x + Stride);
    }
  }

  /** Everything the scan of one row promises: each emitted point lies on
      row `y`, on the grid, at or after column `x`, inside the width and
      covered; every covered grid column from `x` on is emitted; the
      columns strictly increase; and at most one point per grid column. */
  lemma ScanRowFacts(data: seq<int>, width: nat, y: int, x: int)
    requires 0 <= x && x % Stride == 0
    ensures forall p :: p in ScanRow(data, width, y, x) ==>
      p.y == y && x <= p.x < width && p.x % Stride == 0 && Covered(data, width, p.x, p.y)
    ensures forall c :: x <= c < width && c % Stride == 0 && Covered(data, width, c, y) ==>
      Point(c, y) in ScanRow(data, width, y, x)
    ensures RowMajor(ScanRow(data, width, y, x))
    ensures |ScanRow(data, width, y, x)| <= GridCount(x, width)
  {
    ScanRowAligned(data, width, y, x);
    ScanRowComplete(data, width, y, x);
    ScanRowOrdered(data, width, y, x);
    ScanRowBound(data, width, y, x);
  }

  /** The scan of rows from `y` onwards emits every covered grid point of
      those rows. */
  lemma {:induction false} ScanRowsComplete(data: seq<int>, width: nat, height: nat, y: int)
    requires 0 <= y && y % Stride == 0
    ensures forall c, r ::
      (0 <= c < width && y <= r < height && c % Stride == 0 && r % Stride == 0
       && Covered(data, width, c, r)) ==> Point(c, r) in ScanRows(data, width, height, y)
    decreases height - y
  {
    if y < height {
      var row := ScanRow(data, width, y, 0);
      var rest := ScanRows(data, width, height, y + Stride);
      ScanRowComplete(data, width, y, 0);
      ScanRowsComplete(data, width, height, y + Stride);
      assert ScanRows(data, width, height, y) == row + rest;
      forall c, r | 0 <= c < width && y <= r < height && c % Stride == 0 && r % Stride == 0
          && Covered(data, width, c, r)
        ensures Point(c, r) in row + rest
      {
        if r != y {
          NextMultiple(y, r);
          assert Point(c, r) in rest;
        } else {
          assert Point(c, r) in row;
        }
      }
    }
  }

  /** The scan of rows from `y` onwards is strictly row-major. */
  lemma {:induction false} ScanRowsOrdered(data: seq<int>, width: nat, height: nat, y: int)
    requires 0 <= y && y % Stride == 0
    ensures RowMajor(ScanRows(data, width, height, y))
    decreases height - y
  {
    if y < height {
      var row := ScanRow(data, width, y, 0);
      var rest := ScanRows(data, width, height, y + Stride);
      ScanRowOrdered(data, width, y, 0);
      ScanRowsOrdered(data, width, height, y + Stride);
      forall i, j | 0 <= i < |row| && 0 <= j < |rest|
        ensures Before(row[i], rest[j])
      {
        assert row[i].y == y;
        assert y + Stride <= rest[j].y;
      }
      RowMajorAppend(row, rest);
    }
  }

  /** The scan of rows from `y` onwards emits at most one point per grid
      column of each grid row. */
  lemma {:induction false} ScanRowsBound(data: seq<int>, width: nat, height: nat, y: int)
    requires 0 <= y && y % Stride == 0
    ensures |ScanRows(data, width, height, y)| <= GridCount(y, height) * GridCount(0, width)
    decreases height - y
  {
    if y < height {
      var row := ScanRow(data, width, y, 0);
      var rest := ScanRows(data, width, height, y + Stride);
      ScanRowBound(data, width, y, 0);
      ScanRowsBound(data, width, height, y + Stride);
      var w := GridCount(0, width);
      assert |row| <= w;
      assert |rest| <= GridCount(y + Stride, height) * w;
      assert GridCount(y, height) * w == w + GridCount(y + Stride, height) * w;
    }
  }

  /** Everything the scan of rows from `y` onwards promises, as for one
      row, with rows in increasing order and at most one row's worth of
      points per grid row. */
  lemma ScanRowsFacts(data: seq<int>, width: nat, height: nat, y: int)
    requires 0 <= y && y % Stride == 0
    ensures forall p :: p in ScanRows(data, width, height, y) ==>
      OnGrid(p, width, height) && y <= p.y && Covered(data, width, p.x, p.y)
    ensures forall c, r ::
      (0 <= c < width && y <= r < height && c % Stride == 0 && r % Stride == 0
       && Covered(data, width, c, r)) ==> Point(c, r) in ScanRows(data, width, height, y)
    ensures RowMajor(ScanRows(data, width, height, y))
    ensures |ScanRows(data, width, height, y)| <= GridCount(y, height) * GridCount(0, width)
  {
    ScanRowsOnGrid(data, width, height, y);
    ScanRowsComplete(data, width, height, y);
    ScanRowsOrdered(data, width, height, y);
    ScanRowsBound(data, width, height, y);
  }

  /** Every point the scan of rows from `y` onwards emits is stride-aligned
      in both axes. */
  lemma {:induction false} ScanRowsOnGrid(data: seq<int>, width: nat, height: nat, y: int)
    requires 0 <= y && y % Stride == 0
    ensures forall p :: p in ScanRows(data, width, height, y) ==> OnGrid(p, width, height)
    decreases height - y
  {
    if y < height {
      var row := ScanRow(data, width, y, 0);
      var rest := ScanRows(data, width, height, y + Stride);
      ScanRowAligned(data, width, y, 0);
      ScanRowsOnGrid(data, width, height, y + Stride);
      assert ScanRows(data, width, height, y) == row + rest;
    }
  }

  /** The sampled targets are exactly the covered grid points, in
      row-major order, and there are at most ceil(w/6) * ceil(h/6) of
      them. */
  lemma SampleCorrect(data: seq<int>, width: nat, height: nat)
    ensures forall p :: p in Sample(data, width, height) ==>
      OnGrid(p, width, height) && Covered(data, width, p.x, p.y)
    ensures forall c, r :: OnGrid(Point(c, r), width, height) && Covered(data, width, c, r) ==>
      Point(c, r) in Sample(data, width, height)
    ensures RowMajor(Sample(data, width, height))
    ensures |Sample(data, width, height)| <= ((width + 5) / 6) * ((height + 5) / 6)
  {
    ScanRowsFacts(data, width, height, 0);
    var cols, rows := GridCount(0, width), GridCount(0, height);
    GridCountIsCeiling(0, width);
    GridCountIsCeiling(0, height);
    assert cols == (width + 5) / 6;
    assert rows == (height + 5) / 6;
    assert rows * cols == cols * rows;
  }

  /** The inner loop of the scan: appends the covered grid points of row
      `y` to `acc`. */
  method ScanRowInto(data: seq<int>, width: nat, y: int, acc: seq<Point>) returns (out: seq<Point>)
    ensures out == acc + ScanRow(data, width, y, 0)
  {
    out := acc;
    var x := 0;
    while x < width
      invariant 0 <= x
      invariant out + ScanRow(data, width, y, x) == acc + ScanRow(data, width, y, 0)
    {
      var head := if Covered(data, width, x, y) then [Point(x, y)] else [];
      assert ScanRow(data, width, y, x) == head + ScanRow(data, width, y, x + Stride);
      assert out + (head + ScanRow(data, width, y, x + Stride))
          == (out + head) + ScanRow(data, width, y, x + Stride);
      out := out + head;
      x := x + Stride;
    }
    assert out + [] == out;
  }

  /** The scan as the source writes it: two nested stride-6 loops that
      append covered points.  It computes exactly `Sample`. */
  method SampleTargets(data: seq<int>, width: nat, height: nat) returns (targets: seq<Point>)
    ensures targets == Sample(data, width, height)
  {
    targets := [];
    var y := 0;
    while y < height
      invariant 0 <= y
      invariant targets + ScanRows(data, width, height, y) == Sample(data, width, height)
    {
      var row := ScanRow(data, width, y, 0);
      assert ScanRows(data, width, height, y) == row + ScanRows(data, width, height, y + Stride);
      assert targets + (row + ScanRows(data, width, height, y + Stride))
          == (targets + row) + ScanRows(data, width, height, y + Stride);
      targets := ScanRowInto(data, width, y, targets);
      y := y + Stride;
    }
    assert targets + [] == targets;
  }
}
