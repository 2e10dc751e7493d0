/**
 The isometric compositor: where each cell of the map is drawn on the
 canvas, which cells get an arch overlay, how large the canvas is, and the
 order of the draws. A draw is recorded as the rectangle and the raster it
 paints (a pillar by number, or an arch overlay by arch id); the pixels are
 not modelled.

 Map coordinate system: cell (0, 0) is the top vertex of a diamond;
 increasing col moves right and down, increasing row moves left and down.
 */
module Isometric {
  import opened Cells

  /** The footprint of a cell and the width of a pillar raster, in pixels. */
  datatype Metrics = Metrics(blockWidth: int, blockHeight: int, pillarWidth: int)

  predicate ValidMetrics(m: Metrics) {
    m.blockWidth > 0 && m.blockHeight > 0 && m.pillarWidth > 0
  }

  /** Go's integer division, which truncates toward zero. */
  function GoDiv(a: int, b: int): (q: int)
    requires b > 0
    ensures a >= 0 ==> 0 <= a - b * q < b
    ensures a < 0 ==> -b < a - b * q <= 0
  {
    if a >= 0 then a / b else -((-a) / b)
  }

  /** An image.Rectangle: the points (x, y) with minX <= x < maxX and minY <= y < maxY. */
  datatype Rectangle = Rectangle(minX: int, minY: int, maxX: int, maxY: int)

  /** image.Rect: the rectangle with corners (x0, y0) and (x1, y1), coordinates swapped where needed. */
  function Rect(x0: int, y0: int, x1: int, y1: int): (r: Rectangle)
    ensures r.minX <= r.maxX && r.minY <= r.maxY
    ensures (r.minX, r.maxX) == (x0, x1) || (r.minX, r.maxX) == (x1, x0)
    ensures (r.minY, r.maxY) == (y0, y1) || (r.minY, r.maxY) == (y1, y0)
  {
    var (minX, maxX) := if x0 > x1 then (x1, x0) else (x0, x1);
    var (minY, maxY) := if y0 > y1 then (y1, y0) else (y0, y1);
    Rectangle(minX, minY, maxX, maxY)
  }

  /**
   The product k * w for a factor k of either sign, written as repeated
   addition (as Cells.Mul is for naturals) so that the verifier treats a
   product of two variables as a plain term; TimesIsProduct connects it to *.
   */
  function Times(k: int, w: int): int
    decreases if k < 0 then -k else k
  {
    if k == 0 then 0 else if k > 0 then Times(k - 1, w) + w else Times(k + 1, w) - w
  }

  lemma {:induction false} TimesIsProduct(k: int, w: int)
    ensures Times(k, w) == k * w
    decreases if k < 0 then -k else k
  {
    if k > 0 {
      TimesIsProduct(k - 1, w);
    } else if k < 0 {
      TimesIsProduct(k + 1, w);
    }
  }

  /** The rectangle of the canvas that the pillar of cell (col, row) covers. */
  function GetPillarRect(m: Metrics, col: int, row: int, mapWidth: int, pillarHeight: int): Rectangle
    requires ValidMetrics(m)
  {
    var minX := GoDiv(mapWidth, 2) - m.blockWidth - Times(row, m.blockWidth) + Times(col, m.blockWidth);
    var minY := Times(row, m.blockHeight / 2) + Times(col, m.blockHeight / 2);
    Rect(minX, minY, minX + m.pillarWidth, minY + pillarHeight)
  }

  /**
   The projection in closed form: minX = mapWidth/2 - blockWidth - row*blockWidth + col*blockWidth
   and minY = (row + col) * (blockHeight/2), with Go's truncating division.
   */
  lemma PillarRectFormula(m: Metrics, col: int, row: int, mapWidth: int, pillarHeight: int)
    requires ValidMetrics(m) && pillarHeight >= 0
    ensures
      var rect := GetPillarRect(m, col, row, mapWidth, pillarHeight);
      rect.minX == GoDiv(mapWidth, 2) - m.blockWidth - row * m.blockWidth + col * m.blockWidth &&
      rect.minY == (row + col) * (m.blockHeight / 2)
  {
    TimesIsProduct(row, m.blockWidth);
    TimesIsProduct(col, m.blockWidth);
    TimesIsProduct(row, m.blockHeight / 2);
    TimesIsProduct(col, m.blockHeight / 2);
    assert (row + col) * (m.blockHeight / 2) == row * (m.blockHeight / 2) + col * (m.blockHeight / 2);
  }

  /** The rectangle is a pillar raster in size: pillarWidth wide and pillarHeight tall. */
  lemma PillarRectSize(m: Metrics, col: int, row: int, mapWidth: int, pillarHeight: int)
    requires ValidMetrics(m) && pillarHeight >= 0
    ensures
      var rect := GetPillarRect(m, col, row, mapWidth, pillarHeight);
      rect.maxX - rect.minX == m.pillarWidth && rect.maxY - rect.minY == pillarHeight
  {
  }

  /** Cell (0, 0) is drawn at the top of the canvas, one block left of its middle. */
  lemma PillarRectOrigin(m: Metrics, mapWidth: int, pillarHeight: int)
    requires ValidMetrics(m) && pillarHeight >= 0
    ensures
      var rect := GetPillarRect(m, 0, 0, mapWidth, pillarHeight);
      rect.minX == GoDiv(mapWidth, 2) - m.blockWidth && rect.minY == 0
  {
  }

  /**
   The projection is translation-consistent: one col further is one block
   width to the right, one row further is one block width to the left, and
   either is half a block height down.
   */
  lemma PillarRectStep(m: Metrics, col: int, row: int, mapWidth: int, pillarHeight: int)
    requires ValidMetrics(m)
    ensures
      var here := GetPillarRect(m, col, row, mapWidth, pillarHeight);
      var right := GetPillarRect(m, col + 1, row, mapWidth, pillarHeight);
      var left := GetPillarRect(m, col, row + 1, mapWidth, pillarHeight);
      right.minX - here.minX == m.blockWidth && left.minX - here.minX == -m.blockWidth &&
      right.minY - here.minY == m.blockHeight / 2 && left.minY - here.minY == m.blockHeight / 2
  {
    TimesIsProduct(col, m.blockWidth);
    TimesIsProduct(col + 1, m.blockWidth);
    TimesIsProduct(row, m.blockWidth);
    TimesIsProduct(row + 1, m.blockWidth);
    TimesIsProduct(col, m.blockHeight / 2);
    TimesIsProduct(col + 1, m.blockHeight / 2);
    TimesIsProduct(row, m.blockHeight / 2);
    TimesIsProduct(row + 1, m.blockHeight / 2);
    assert (col + 1) * m.blockWidth == col * m.blockWidth + m.blockWidth;
    assert (row + 1) * m.blockWidth == row * m.blockWidth + m.blockWidth;
    assert (col + 1) * (m.blockHeight / 2) == col * (m.blockHeight / 2) + m.blockHeight / 2;
    assert (row + 1) * (m.blockHeight / 2) == row * (m.blockHeight / 2) + m.blockHeight / 2;
  }

  // Pillar ids of layout 1 whose floor shadows need an arch overlay.
  const FloorShadowArchSe_1: int := 10
  const FloorShadowArchSe_2: int := 248
  const FloorShadowArchSe_3: int := 324
  const FloorShadowArchSe_4: int := 330
  const FloorShadowArchSe_5: int := 343
  const FloorShadowArchSe_6: int := 420
  const FloorShadowArchSw2_1: int := 258
  const FloorShadowArchSwBroken2_1: int := 254
  const FloorShadowArchSw_1: int := 11
  const FloorShadowArchSw_2: int := 70
  const FloorShadowArchSw_3: int := 210
  const FloorShadowArchSw_4: int := 320
  const FloorShadowArchSw_5: int := 340
  const FloorShadowArchSw_6: int := 417

  // Arch ids of layout 1: frames of the overlay sheet.
  const ArchSe: int := 1
  const ArchSeBroken: int := 2
  const ArchSeDoor: int := 7
  const ArchSw: int := 0
  const ArchSw2: int := 4
  const ArchSwBroken: int := 5
  const ArchSwBroken2: int := 3
  const ArchSwDoor: int := 6

  /** The pillars under a south-west arch. */
  const ArchSwPillars: set<int> := {11, 70, 210, 320, 340, 417}
  /** The pillars under a south-east arch. */
  const ArchSePillars: set<int> := {10, 248, 324, 330, 343, 420}

  /**
   The arch overlay drawn over a pillar: (arch id, true) for the pillar ids
   of the four arch kinds, (0, false) for every other pillar id.
   */
  function GetArchId(pillarId: int): (int, bool)
  {
    if pillarId == FloorShadowArchSw_1 || pillarId == FloorShadowArchSw_2 || pillarId == FloorShadowArchSw_3
       || pillarId == FloorShadowArchSw_4 || pillarId == FloorShadowArchSw_5 || pillarId == FloorShadowArchSw_6 then
      (ArchSw, true)
    else if pillarId == FloorShadowArchSe_1 || pillarId == FloorShadowArchSe_2 || pillarId == FloorShadowArchSe_3
       || pillarId == FloorShadowArchSe_4 || pillarId == FloorShadowArchSe_5 || pillarId == FloorShadowArchSe_6 then
      (ArchSe, true)
    else if pillarId == FloorShadowArchSwBroken2_1 then
      (ArchSwBroken2, true)
    else if pillarId == FloorShadowArchSw2_1 then
      (ArchSw2, true)
    else
      (0, false)
  }

  /** The four groups of arch pillars and their arch ids; no other pillar has an arch. */
  lemma ArchIdGroups(pillarId: int)
    ensures pillarId in ArchSwPillars ==> GetArchId(pillarId) == (ArchSw, true)
    ensures pillarId in ArchSePillars ==> GetArchId(pillarId) == (ArchSe, true)
    ensures pillarId == FloorShadowArchSwBroken2_1 ==> GetArchId(pillarId) == (ArchSwBroken2, true)
    ensures pillarId == FloorShadowArchSw2_1 ==> GetArchId(pillarId) == (ArchSw2, true)
    ensures GetArchId(pillarId).1 <==> pillarId in ArchSwPillars + ArchSePillars + {254, 258}
    ensures !GetArchId(pillarId).1 ==> GetArchId(pillarId).0 == 0
  {
  }

  // The canvas.

  /** The larger of the two counts. */
  function MaxCount(colCount: int, rowCount: int): (n: int)
    ensures n >= colCount && n >= rowCount && (n == colCount || n == rowCount)
  {
    if rowCount > colCount then rowCount else colCount
  }

  /**
   The canvas width and height. Both are computed from the larger count, as
   for a square grid, so a grid that is not square gets a canvas larger
   than its diamond.
   */
  function CanvasSize(m: Metrics, colCount: int, rowCount: int, pillarHeight: int): (int, int)
    requires ValidMetrics(m)
  {
    var maxCount := MaxCount(colCount, rowCount);
    (Times(maxCount, m.blockWidth) + Times(maxCount, m.blockWidth),
     Times(maxCount, m.blockHeight / 2) + Times(maxCount, m.blockHeight / 2) + (pillarHeight - m.blockHeight))
  }

  /** A colCount x rowCount grid gets the canvas of the square grid of its larger side. */
  lemma CanvasOfSquare(m: Metrics, colCount: int, rowCount: int, pillarHeight: int)
    requires ValidMetrics(m)
    ensures CanvasSize(m, colCount, rowCount, pillarHeight) ==
      CanvasSize(m, MaxCount(colCount, rowCount), MaxCount(colCount, rowCount), pillarHeight)
  {
  }

  /**
   The rectangle of every cell of the grid lies on the canvas, provided a
   pillar is at most two blocks wide and the block height is even.
   */
  lemma CellRectInCanvas(m: Metrics, colCount: int, rowCount: int, pillarHeight: int, col: int, row: int)
    requires ValidMetrics(m) && m.pillarWidth <= 2 * m.blockWidth && m.blockHeight % 2 == 0
    requires pillarHeight >= 0 && 0 <= col < colCount && 0 <= row < rowCount
    ensures
      var (width, height) := CanvasSize(m, colCount, rowCount, pillarHeight);
      var rect := GetPillarRect(m, col, row, width, pillarHeight);
      0 <= rect.minX && rect.maxX <= width && 0 <= rect.minY && rect.maxY <= height
  {
    var n := MaxCount(colCount, rowCount);
    var bw, h := m.blockWidth, m.blockHeight / 2;
    TimesIsProduct(n, bw);
    TimesIsProduct(n, h);
    TimesIsProduct(col, bw);
    TimesIsProduct(row, bw);
    TimesIsProduct(col, h);
    TimesIsProduct(row, h);
    ScaleBelow(col, n, bw);
    ScaleBelow(row, n, bw);
    ScaleBelow(col, n, h);
    ScaleBelow(row, n, h);
    assert GoDiv(n * bw + n * bw, 2) == n * bw;
  }

  /** k steps of w stay at least one step below n steps of w. */
  lemma ScaleBelow(k: int, n: int, w: int)
    requires 0 <= k < n && w >= 0
    ensures 0 <= k * w <= n * w - w
  {
    assert (n - 1 - k) * w >= 0;
    assert n * w - w - k * w == (n - 1 - k) * w;
  }

  // The draws.

  /** The raster a draw paints: a pillar of the level, or a frame of the arch overlay sheet. */
  datatype Source = PillarImage(pillarNum: int) | ArchImage(archId: int)

  /** One draw.Draw call with the Over operator: src painted into rect. */
  datatype Draw = Draw(rect: Rectangle, src: Source)

  /** The outcome of compositing: the canvas size and its draws in order, or a Go runtime panic. */
  datatype Rendered = Canvas(bounds: Rectangle, draws: seq<Draw>) | Panic

  /** A pillar of the level's pillar table; only its height enters the geometry. */
  datatype Pillar = Pillar(height: int)

  /**
   The draws of one cell: none without a pillar; otherwise its pillar, then
   the arch overlay of that pillar if it has one, both into the cell's rectangle.
   */
  function CellDraws(m: Metrics, cell: Cell, col: int, row: int, mapWidth: int, pillarHeight: int): seq<Draw>
    requires ValidMetrics(m)
  {
    match cell.pillarNum
    case None => []
    case Some(pillarNum) =>
      var rect := GetPillarRect(m, col, row, mapWidth, pillarHeight);
      var (archId, ok) := GetArchId(pillarNum);
      if ok then [Draw(rect, PillarImage(pillarNum)), Draw(rect, ArchImage(archId))]
      else [Draw(rect, PillarImage(pillarNum))]
  }

  /**
   A cell without a pillar draws nothing; a cell with one draws its pillar
   into its rectangle, then, exactly when the pillar has an arch, the arch
   overlay into the same rectangle.
   */
  lemma CellDrawsShape(m: Metrics, cell: Cell, col: int, row: int, mapWidth: int, pillarHeight: int)
    requires ValidMetrics(m)
    ensures var ds := CellDraws(m, cell, col, row, mapWidth, pillarHeight);
      (cell.pillarNum.None? <==> ds == []) &&
      (cell.pillarNum.Some? ==>
        var pillarNum := cell.pillarNum.value;
        |ds| == (if GetArchId(pillarNum).1 then 2 else 1) &&
        ds[0] == Draw(GetPillarRect(m, col, row, mapWidth, pillarHeight), PillarImage(pillarNum)) &&
        (|ds| == 2 ==> ds[1] == Draw(ds[0].rect, ArchImage(GetArchId(pillarNum).0))))
  {
  }

  /** The cells (0, row) .. (n-1, row), left to right. */
  function RowOf(n: nat, row: int): (vs: seq<(int, int)>)
    ensures |vs| == n
  {
    if n == 0 then [] else RowOf(n - 1, row) + [(n - 1, row)]
  }

  /** The cells of a cols x rows grid in the order the compositor visits them: row by row, each left to right. */
  function RowMajor(cols: nat, rows: nat): (vs: seq<(int, int)>)
    ensures |vs| == Mul(rows, cols)
  {
    if rows == 0 then [] else RowMajor(cols, rows - 1) + RowOf(cols, rows - 1)
  }

  /** u is painted before v: it is on an earlier row, or on the same row further left. */
  predicate PaintedBefore(u: (int, int), v: (int, int)) {
    u.1 < v.1 || (u.1 == v.1 && u.0 < v.0)
  }

  /** The cell at index Mul(row, cols) + col of the visit order is (col, row). */
  lemma {:induction false} RowMajorAt(cols: nat, rows: nat, col: nat, row: nat)
    requires col < cols && row < rows
    ensures Mul(row, cols) + col < Mul(rows, cols) && RowMajor(cols, rows)[Mul(row, cols) + col] == (col, row)
  {
    if row < rows - 1 {
      RowMajorAt(cols, rows - 1, col, row);
    } else {
      RowOfAt(cols, row, col);
    }
  }

  lemma {:induction false} RowOfAt(n: nat, row: int, col: nat)
    requires col < n
    ensures RowOf(n, row)[col] == (col, row)
  {
    if col < n - 1 {
      RowOfAt(n - 1, row, col);
    }
  }

  /** Every cell of the visit order lies in the grid. */
  lemma {:induction false} RowMajorBounds(cols: nat, rows: nat, k: nat)
    requires k < Mul(rows, cols)
    ensures 0 <= RowMajor(cols, rows)[k].0 < cols && 0 <= RowMajor(cols, rows)[k].1 < rows
  {
    var prev := RowMajor(cols, rows - 1);
    assert RowMajor(cols, rows) == prev + RowOf(cols, rows - 1);
    if k < |prev| {
      RowMajorBounds(cols, rows - 1, k);
    } else {
      RowOfAt(cols, rows - 1, k - |prev|);
    }
  }

  /** The visit order lists exactly the cells of the grid. */
  lemma RowMajorCells(cols: nat, rows: nat, v: (int, int))
    ensures v in RowMajor(cols, rows) <==> 0 <= v.0 < cols && 0 <= v.1 < rows
  {
    var vs := RowMajor(cols, rows);
    if 0 <= v.0 < cols && 0 <= v.1 < rows {
      RowMajorAt(cols, rows, v.0, v.1);
    }
    if v in vs {
      var k :| 0 <= k < |vs| && vs[k] == v;
      RowMajorBounds(cols, rows, k);
    }
  }

  /** The visit order is strictly increasing: rows ascending, and columns ascending within a row. */
  lemma {:induction false} RowMajorOrdered(cols: nat, rows: nat, a: nat, b: nat)
    requires a < b < Mul(rows, cols)
    ensures PaintedBefore(RowMajor(cols, rows)[a], RowMajor(cols, rows)[b])
  {
    var prev := RowMajor(cols, rows - 1);
    var vs := RowMajor(cols, rows);
    assert vs == prev + RowOf(cols, rows - 1);
    if b < |prev| {
      RowMajorOrdered(cols, rows - 1, a, b);
      assert vs[a] == prev[a] && vs[b] == prev[b];
    } else if a < |prev| {
      RowMajorBounds(cols, rows - 1, a);
      RowOfAt(cols, rows - 1, b - |prev|);
      assert vs[a] == prev[a];
    } else {
      RowOfAt(cols, rows - 1, a - |prev|);
      RowOfAt(cols, rows - 1, b - |prev|);
    }
  }

  /** Compositing panics at cell (col, row): it is off the map, or its pillar is not in the table. */
  predicate CellPanics(cells: array2<Cell>, pillars: seq<Pillar>, col: int, row: int)
    requires cells.Length0 == ColMax && cells.Length1 == RowMax
    reads cells
  {
    !InGrid(col, row) ||
    (cells[col, row].pillarNum.Some? && !(0 <= cells[col, row].pillarNum.value < |pillars|))
  }

  /** Visiting cell (col, row): a panic (None), or the draws of the cell. */
  function CellPaint(m: Metrics, cells: array2<Cell>, pillars: seq<Pillar>, col: int, row: int, mapWidth: int, pillarHeight: int)
    : Option<seq<Draw>>
    requires ValidMetrics(m) && cells.Length0 == ColMax && cells.Length1 == RowMax
    reads cells
  {
    if CellPanics(cells, pillars, col, row) then None
    else Some(CellDraws(m, cells[col, row], col, row, mapWidth, pillarHeight))
  }

  /** Draws followed by draws; a panic on either side is a panic. */
  function Join(a: Option<seq<Draw>>, b: Option<seq<Draw>>): (r: Option<seq<Draw>>)
    ensures r.Some? <==> a.Some? && b.Some?
    ensures r.Some? ==> r.value == a.value + b.value
  {
    if a.Some? && b.Some? then Some(a.value + b.value) else None
  }

  lemma JoinAssoc(a: Option<seq<Draw>>, b: Option<seq<Draw>>, c: Option<seq<Draw>>)
    ensures Join(Join(a, b), c) == Join(a, Join(b, c))
  {
    if a.Some? && b.Some? && c.Some? {
      assert (a.value + b.value) + c.value == a.value + (b.value + c.value);
    }
  }

  /**
   Visiting the cells of `visits` one after another: the draws of all of
   them in order, or None when some cell panics.
   */
  function PaintAll(m: Metrics, cells: array2<Cell>, pillars: seq<Pillar>, visits: seq<(int, int)>, mapWidth: int, pillarHeight: int)
    : Option<seq<Draw>>
    requires ValidMetrics(m) && cells.Length0 == ColMax && cells.Length1 == RowMax
    reads cells
  {
    if visits == [] then Some([])
    else
      var v := visits[|visits| - 1];
      Join(PaintAll(m, cells, pillars, visits[..|visits| - 1], mapWidth, pillarHeight),
           CellPaint(m, cells, pillars, v.0, v.1, mapWidth, pillarHeight))
  }

  /** Visiting one more cell joins that cell's outcome to the outcome so far. */
  lemma PaintStep(m: Metrics, cells: array2<Cell>, pillars: seq<Pillar>, visits: seq<(int, int)>, col: int, row: int, mapWidth: int, pillarHeight: int)
    requires ValidMetrics(m) && cells.Length0 == ColMax && cells.Length1 == RowMax
    ensures PaintAll(m, cells, pillars, visits + [(col, row)], mapWidth, pillarHeight) ==
      Join(PaintAll(m, cells, pillars, visits, mapWidth, pillarHeight), CellPaint(m, cells, pillars, col, row, mapWidth, pillarHeight))
  {
    assert (visits + [(col, row)])[..|visits|] == visits;
  }

  /**
   Painting is sequential: visiting xs and then ys gives the draws of xs
   followed by the draws of ys, and panics when either panics.
   */
  lemma {:induction false} PaintConcat(m: Metrics, cells: array2<Cell>, pillars: seq<Pillar>, xs: seq<(int, int)>, ys: seq<(int, int)>,
                                       mapWidth: int, pillarHeight: int)
    requires ValidMetrics(m) && cells.Length0 == ColMax && cells.Length1 == RowMax
    ensures PaintAll(m, cells, pillars, xs + ys, mapWidth, pillarHeight) ==
      Join(PaintAll(m, cells, pillars, xs, mapWidth, pillarHeight), PaintAll(m, cells, pillars, ys, mapWidth, pillarHeight))
  {
    if ys == [] {
      assert xs + ys == xs;
      var p := PaintAll(m, cells, pillars, xs, mapWidth, pillarHeight);
      if p.Some? {
        assert p.value + [] == p.value;
      }
    } else {
      var init, last := ys[..|ys| - 1], ys[|ys| - 1];
      assert ys == init + [last];
      assert xs + ys == (xs + init) + [last];
      PaintConcat(m, cells, pillars, xs, init, mapWidth, pillarHeight);
      PaintStep(m, cells, pillars, xs + init, last.0, last.1, mapWidth, pillarHeight);
      PaintStep(m, cells, pillars, init, last.0, last.1, mapWidth, pillarHeight);
      JoinAssoc(PaintAll(m, cells, pillars, xs, mapWidth, pillarHeight), PaintAll(m, cells, pillars, init, mapWidth, pillarHeight),
                CellPaint(m, cells, pillars, last.0, last.1, mapWidth, pillarHeight));
    }
  }

  /** Visiting a sequence of cells panics exactly when one of its cells panics. */
  lemma {:induction false} PaintPanics(m: Metrics, cells: array2<Cell>, pillars: seq<Pillar>, visits: seq<(int, int)>, mapWidth: int, pillarHeight: int)
    requires ValidMetrics(m) && cells.Length0 == ColMax && cells.Length1 == RowMax
    ensures PaintAll(m, cells, pillars, visits, mapWidth, pillarHeight).None? <==>
      exists i :: 0 <= i < |visits| && CellPanics(cells, pillars, visits[i].0, visits[i].1)
  {
    if visits != [] {
      var init, last := visits[..|visits| - 1], visits[|visits| - 1];
      PaintPanics(m, cells, pillars, init, mapWidth, pillarHeight);
      if exists i :: 0 <= i < |init| && CellPanics(cells, pillars, init[i].0, init[i].1) {
        var i :| 0 <= i < |init| && CellPanics(cells, pillars, init[i].0, init[i].1);
        assert visits[i] == init[i];
      }
      if exists i :: 0 <= i < |visits| && CellPanics(cells, pillars, visits[i].0, visits[i].1) {
        var i :| 0 <= i < |visits| && CellPanics(cells, pillars, visits[i].0, visits[i].1);
        if i < |init| {
          assert init[i] == visits[i];
        }
      }
    }
  }

  /** A run in which no cell draws anything draws nothing. */
  lemma {:induction false} PaintNothing(m: Metrics, cells: array2<Cell>, pillars: seq<Pillar>, visits: seq<(int, int)>, mapWidth: int, pillarHeight: int)
    requires ValidMetrics(m) && cells.Length0 == ColMax && cells.Length1 == RowMax
    requires forall j :: 0 <= j < |visits| ==> CellPaint(m, cells, pillars, visits[j].0, visits[j].1, mapWidth, pillarHeight) == Some([])
    ensures PaintAll(m, cells, pillars, visits, mapWidth, pillarHeight) == Some([])
  {
    if visits != [] {
      var init := visits[..|visits| - 1];
      forall j | 0 <= j < |init|
        ensures CellPaint(m, cells, pillars, init[j].0, init[j].1, mapWidth, pillarHeight) == Some([])
      {
        assert init[j] == visits[j];
      }
      PaintNothing(m, cells, pillars, init, mapWidth, pillarHeight);
    }
  }

  /**
   When no cell panics, the draws of the cell at position i of the visit
   order form one block, right after the draws of the cells before it and
   right before the draws of the cells after it.
   */
  lemma PaintAt(m: Metrics, cells: array2<Cell>, pillars: seq<Pillar>, visits: seq<(int, int)>, i: nat, mapWidth: int, pillarHeight: int)
    requires ValidMetrics(m) && cells.Length0 == ColMax && cells.Length1 == RowMax && i < |visits|
    requires PaintAll(m, cells, pillars, visits, mapWidth, pillarHeight).Some?
    ensures PaintAll(m, cells, pillars, visits[..i], mapWidth, pillarHeight).Some?
    ensures PaintAll(m, cells, pillars, visits[i + 1..], mapWidth, pillarHeight).Some?
    ensures !CellPanics(cells, pillars, visits[i].0, visits[i].1)
    ensures
      var v := visits[i];
      PaintAll(m, cells, pillars, visits, mapWidth, pillarHeight).value ==
        PaintAll(m, cells, pillars, visits[..i], mapWidth, pillarHeight).value +
        CellDraws(m, cells[v.0, v.1], v.0, v.1, mapWidth, pillarHeight) +
        PaintAll(m, cells, pillars, visits[i + 1..], mapWidth, pillarHeight).value
  {
    var pre, v, post := visits[..i], visits[i], visits[i + 1..];
    assert visits == (pre + [v]) + post;
    PaintConcat(m, cells, pillars, pre + [v], post, mapWidth, pillarHeight);
    PaintStep(m, cells, pillars, pre, v.0, v.1, mapWidth, pillarHeight);
  }

  /**
   Compositing the colCount x rowCount corner of the map with the given
   pillar table: the canvas is sized from the first pillar's height, and the
   cells are painted in row-major order. An empty pillar table, a cell off
   the map or a pillar number outside the table is a panic.
   */
  function Render(m: Metrics, cells: array2<Cell>, colCount: int, rowCount: int, pillars: seq<Pillar>): Rendered
    requires ValidMetrics(m) && cells.Length0 == ColMax && cells.Length1 == RowMax
    reads cells
  {
    if |pillars| == 0 then Panic
    else
      var pillarHeight := pillars[0].height;
      var (width, height) := CanvasSize(m, colCount, rowCount, pillarHeight);
      match PaintAll(m, cells, pillars, RowMajor(Count(colCount), Count(rowCount)), width, pillarHeight)
      case None => Panic
      case Some(draws) => Canvas(Rect(0, 0, width, height), draws)
  }

  /**
   Compositing panics exactly when the pillar table is empty or some cell
   of the colCount x rowCount grid is off the map or has a pillar that is
   not in the table.
   */
  lemma RenderPanics(m: Metrics, cells: array2<Cell>, colCount: int, rowCount: int, pillars: seq<Pillar>)
    requires ValidMetrics(m) && cells.Length0 == ColMax && cells.Length1 == RowMax
    ensures Render(m, cells, colCount, rowCount, pillars).Panic? <==>
      |pillars| == 0 || exists c, r :: 0 <= c < colCount && 0 <= r < rowCount && CellPanics(cells, pillars, c, r)
  {
    if |pillars| > 0 {
      var visits := RowMajor(Count(colCount), Count(rowCount));
      var (width, _) := CanvasSize(m, colCount, rowCount, pillars[0].height);
      PaintPanics(m, cells, pillars, visits, width, pillars[0].height);
      if exists i :: 0 <= i < |visits| && CellPanics(cells, pillars, visits[i].0, visits[i].1) {
        var i :| 0 <= i < |visits| && CellPanics(cells, pillars, visits[i].0, visits[i].1);
        RowMajorCells(Count(colCount), Count(rowCount), visits[i]);
      }
      if exists c, r :: 0 <= c < colCount && 0 <= r < rowCount && CellPanics(cells, pillars, c, r) {
        var c, r :| 0 <= c < colCount && 0 <= r < rowCount && CellPanics(cells, pillars, c, r);
        RowMajorAt(Count(colCount), Count(rowCount), c, r);
        assert visits[Mul(r, Count(colCount)) + c] == (c, r);
      }
    }
  }

  /** Painting the cells (0, row) .. (cols-1, row), one after another. */
  function PaintRow(m: Metrics, cells: array2<Cell>, pillars: seq<Pillar>, cols: nat, row: int, mapWidth: int, pillarHeight: int)
    : Option<seq<Draw>>
    requires ValidMetrics(m) && cells.Length0 == ColMax && cells.Length1 == RowMax
    reads cells
  {
    if cols == 0 then Some([])
    else Join(PaintRow(m, cells, pillars, cols - 1, row, mapWidth, pillarHeight),
              CellPaint(m, cells, pillars, cols - 1, row, mapWidth, pillarHeight))
  }

  /** Painting a row cell by cell is painting the row's visit order. */
  lemma {:induction false} PaintRowVisits(m: Metrics, cells: array2<Cell>, pillars: seq<Pillar>, cols: nat, row: int, mapWidth: int, pillarHeight: int)
    requires ValidMetrics(m) && cells.Length0 == ColMax && cells.Length1 == RowMax
    ensures PaintRow(m, cells, pillars, cols, row, mapWidth, pillarHeight) ==
      PaintAll(m, cells, pillars, RowOf(cols, row), mapWidth, pillarHeight)
  {
    if cols > 0 {
      PaintRowVisits(m, cells, pillars, cols - 1, row, mapWidth, pillarHeight);
      PaintStep(m, cells, pillars, RowOf(cols - 1, row), cols - 1, row, mapWidth, pillarHeight);
    }
  }

  /** A panic at one of the first cells of a row is a panic of painting the whole row. */
  lemma {:induction false} PaintRowPanicsEarly(m: Metrics, cells: array2<Cell>, pillars: seq<Pillar>, cols: nat, allCols: nat, row: int,
                                               mapWidth: int, pillarHeight: int)
    requires ValidMetrics(m) && cells.Length0 == ColMax && cells.Length1 == RowMax && cols <= allCols
    requires PaintRow(m, cells, pillars, cols, row, mapWidth, pillarHeight).None?
    ensures PaintRow(m, cells, pillars, allCols, row, mapWidth, pillarHeight).None?
  {
    if cols < allCols {
      PaintRowPanicsEarly(m, cells, pillars, cols, allCols - 1, row, mapWidth, pillarHeight);
    }
  }

  /** Painting the first `rows` rows of a cols-wide grid, one row after another. */
  function PaintGrid(m: Metrics, cells: array2<Cell>, pillars: seq<Pillar>, cols: nat, rows: nat, mapWidth: int, pillarHeight: int)
    : Option<seq<Draw>>
    requires ValidMetrics(m) && cells.Length0 == ColMax && cells.Length1 == RowMax
    reads cells
  {
    if rows == 0 then Some([])
    else Join(PaintGrid(m, cells, pillars, cols, rows - 1, mapWidth, pillarHeight),
              PaintRow(m, cells, pillars, cols, rows - 1, mapWidth, pillarHeight))
  }

  /** Painting row after row is painting the cells in row-major visit order. */
  lemma {:induction false} PaintGridRowMajor(m: Metrics, cells: array2<Cell>, pillars: seq<Pillar>, cols: nat, rows: nat, mapWidth: int, pillarHeight: int)
    requires ValidMetrics(m) && cells.Length0 == ColMax && cells.Length1 == RowMax
    ensures PaintGrid(m, cells, pillars, cols, rows, mapWidth, pillarHeight) ==
      PaintAll(m, cells, pillars, RowMajor(cols, rows), mapWidth, pillarHeight)
  {
    if rows > 0 {
      PaintGridRowMajor(m, cells, pillars, cols, rows - 1, mapWidth, pillarHeight);
      PaintRowMajorStep(m, cells, pillars, cols, rows, mapWidth, pillarHeight);
    }
  }

  /** A panic within the first rows is a panic of painting all rows. */
  lemma {:induction false} PaintGridPanicsEarly(m: Metrics, cells: array2<Cell>, pillars: seq<Pillar>, cols: nat, rows: nat, allRows: nat,
                                                mapWidth: int, pillarHeight: int)
    requires ValidMetrics(m) && cells.Length0 == ColMax && cells.Length1 == RowMax && rows <= allRows
    requires PaintGrid(m, cells, pillars, cols, rows, mapWidth, pillarHeight).None?
    ensures PaintGrid(m, cells, pillars, cols, allRows, mapWidth, pillarHeight).None?
  {
    if rows < allRows {
      PaintGridPanicsEarly(m, cells, pillars, cols, rows, allRows - 1, mapWidth, pillarHeight);
    }
  }

  /** Painting row after row: the first rows rows are the first rows - 1 rows, then row rows - 1 cell by cell. */
  lemma PaintRowMajorStep(m: Metrics, cells: array2<Cell>, pillars: seq<Pillar>, cols: nat, rows: nat, mapWidth: int, pillarHeight: int)
    requires ValidMetrics(m) && cells.Length0 == ColMax && cells.Length1 == RowMax && rows > 0
    ensures PaintAll(m, cells, pillars, RowMajor(cols, rows), mapWidth, pillarHeight) ==
      Join(PaintAll(m, cells, pillars, RowMajor(cols, rows - 1), mapWidth, pillarHeight), PaintRow(m, cells, pillars, cols, rows - 1, mapWidth, pillarHeight))
  {
    var prev, row := RowMajor(cols, rows - 1), RowOf(cols, rows - 1);
    assert RowMajor(cols, rows) == prev + row;
    PaintRowVisits(m, cells, pillars, cols, rows - 1, mapWidth, pillarHeight);
    PaintConcat(m, cells, pillars, prev, row, mapWidth, pillarHeight);
  }

  /** In the row-major visit order, the cell (col, row) is visited at position row * cols + col and nowhere else. */
  lemma RowMajorOnce(cols: nat, rows: nat, col: nat, row: nat, j: nat)
    requires col < cols && row < rows && j < Mul(rows, cols) && j != Mul(row, cols) + col
    ensures j < |RowMajor(cols, rows)| && RowMajor(cols, rows)[j] != (col, row)
  {
    var i := Mul(row, cols) + col;
    RowMajorAt(cols, rows, col, row);
    if j < i {
      RowMajorOrdered(cols, rows, j, i);
    } else {
      RowMajorOrdered(cols, rows, i, j);
    }
  }

  /**
   In a run without a panic, a visited cell without a pillar draws nothing.
   */
  lemma EmptyCellDrawsNothing(m: Metrics, cells: array2<Cell>, pillars: seq<Pillar>, visits: seq<(int, int)>, j: nat,
                              mapWidth: int, pillarHeight: int)
    requires ValidMetrics(m) && cells.Length0 == ColMax && cells.Length1 == RowMax && j < |visits|
    requires PaintAll(m, cells, pillars, visits, mapWidth, pillarHeight).Some?
    requires InGrid(visits[j].0, visits[j].1) ==> cells[visits[j].0, visits[j].1].pillarNum.None?
    ensures CellPaint(m, cells, pillars, visits[j].0, visits[j].1, mapWidth, pillarHeight) == Some([])
  {
    PaintPanics(m, cells, pillars, visits, mapWidth, pillarHeight);
    assert !CellPanics(cells, pillars, visits[j].0, visits[j].1);
  }

  /**
   A run without a panic in which every cell but the one at position i
   draws nothing draws what that cell draws.
   */
  lemma PaintSingle(m: Metrics, cells: array2<Cell>, pillars: seq<Pillar>, visits: seq<(int, int)>, i: nat, mapWidth: int, pillarHeight: int)
    requires ValidMetrics(m) && cells.Length0 == ColMax && cells.Length1 == RowMax && i < |visits|
    requires PaintAll(m, cells, pillars, visits, mapWidth, pillarHeight).Some?
    requires forall j :: 0 <= j < |visits| && j != i ==>
      CellPaint(m, cells, pillars, visits[j].0, visits[j].1, mapWidth, pillarHeight) == Some([])
    ensures !CellPanics(cells, pillars, visits[i].0, visits[i].1)
    ensures
      var v := visits[i];
      PaintAll(m, cells, pillars, visits, mapWidth, pillarHeight).value == CellDraws(m, cells[v.0, v.1], v.0, v.1, mapWidth, pillarHeight)
  {
    PaintAt(m, cells, pillars, visits, i, mapWidth, pillarHeight);
    var pre, post := visits[..i], visits[i + 1..];
    forall j | 0 <= j < |pre| ensures CellPaint(m, cells, pillars, pre[j].0, pre[j].1, mapWidth, pillarHeight) == Some([]) {
      assert pre[j] == visits[j];
    }
    forall j | 0 <= j < |post| ensures CellPaint(m, cells, pillars, post[j].0, post[j].1, mapWidth, pillarHeight) == Some([]) {
      assert post[j] == visits[i + 1 + j];
    }
    PaintNothing(m, cells, pillars, pre, mapWidth, pillarHeight);
    PaintNothing(m, cells, pillars, post, mapWidth, pillarHeight);
  }

  /**
   A grid with a single pillar paints that pillar alone, followed by its
   arch overlay exactly when the pillar has an arch.
   */
  lemma SinglePillar(m: Metrics, cells: array2<Cell>, colCount: int, rowCount: int, pillars: seq<Pillar>, col: int, row: int)
    requires ValidMetrics(m) && cells.Length0 == ColMax && cells.Length1 == RowMax
    requires Render(m, cells, colCount, rowCount, pillars).Canvas?
    requires 0 <= col < colCount && 0 <= row < rowCount && InGrid(col, row) && cells[col, row].pillarNum.Some?
    requires forall c, r :: InGrid(c, r) && (c, r) != (col, row) ==> cells[c, r].pillarNum.None?
    ensures
      var img := Render(m, cells, colCount, rowCount, pillars);
      var rect := GetPillarRect(m, col, row, CanvasSize(m, colCount, rowCount, pillars[0].height).0, pillars[0].height);
      var pillarNum := cells[col, row].pillarNum.value;
      var (archId, ok) := GetArchId(pillarNum);
      img.draws == if ok then [Draw(rect, PillarImage(pillarNum)), Draw(rect, ArchImage(archId))] else [Draw(rect, PillarImage(pillarNum))]
  {
    var pillarHeight := pillars[0].height;
    var (width, _) := CanvasSize(m, colCount, rowCount, pillarHeight);
    SinglePillarRun(m, cells, pillars, Count(colCount), Count(rowCount), col, row, width, pillarHeight);
  }

  /** The run over a grid with a single pillar draws what the cell of that pillar draws. */
  lemma SinglePillarRun(m: Metrics, cells: array2<Cell>, pillars: seq<Pillar>, cols: nat, rows: nat, col: nat, row: nat,
                        mapWidth: int, pillarHeight: int)
    requires ValidMetrics(m) && cells.Length0 == ColMax && cells.Length1 == RowMax && col < cols && row < rows
    requires PaintAll(m, cells, pillars, RowMajor(cols, rows), mapWidth, pillarHeight).Some?
    requires forall c, r :: InGrid(c, r) && (c, r) != (col, row) ==> cells[c, r].pillarNum.None?
    ensures !CellPanics(cells, pillars, col, row)
    ensures PaintAll(m, cells, pillars, RowMajor(cols, rows), mapWidth, pillarHeight).value ==
      CellDraws(m, cells[col, row], col, row, mapWidth, pillarHeight)
  {
    RowMajorAt(cols, rows, col, row);
    OthersDrawNothing(m, cells, pillars, cols, rows, col, row, mapWidth, pillarHeight);
    PaintSingle(m, cells, pillars, RowMajor(cols, rows), Mul(row, cols) + col, mapWidth, pillarHeight);
  }

  /**
   In a run over the grid without a panic, when no cell of the map other
   than (col, row) has a pillar, every other cell of the run draws nothing.
   */
  lemma OthersDrawNothing(m: Metrics, cells: array2<Cell>, pillars: seq<Pillar>, cols: nat, rows: nat, col: nat, row: nat,
                          mapWidth: int, pillarHeight: int)
    requires ValidMetrics(m) && cells.Length0 == ColMax && cells.Length1 == RowMax && col < cols && row < rows
    requires PaintAll(m, cells, pillars, RowMajor(cols, rows), mapWidth, pillarHeight).Some?
    requires forall c, r :: InGrid(c, r) && (c, r) != (col, row) ==> cells[c, r].pillarNum.None?
    ensures forall j :: 0 <= j < |RowMajor(cols, rows)| && j != Mul(row, cols) + col ==>
      CellPaint(m, cells, pillars, RowMajor(cols, rows)[j].0, RowMajor(cols, rows)[j].1, mapWidth, pillarHeight) == Some([])
  {
    var visits := RowMajor(cols, rows);
    forall j | 0 <= j < |visits| && j != Mul(row, cols) + col
      ensures CellPaint(m, cells, pillars, visits[j].0, visits[j].1, mapWidth, pillarHeight) == Some([])
    {
      RowMajorOnce(cols, rows, col, row, j);
      EmptyCellDrawsNothing(m, cells, pillars, visits, j, mapWidth, pillarHeight);
    }
  }
}
