/**
 The fixed-size variant of the DUN parser: the caller supplies colCount and
 rowCount and a flat buffer of colCount*rowCount square values (one byte
 each, a square number plus one, 0 = none). The buffer is walked
 column-major: byte Mul(j, rowCount) + i is the square of block (j, i),
 whose top cell is (2j, 2i). A second entry point stores pillar numbers
 plus one from a 112x112 buffer directly.
 */
module DunMini {
  import opened Cells
  import Isometric

  /** How a parse ends: normally, or with a Go runtime panic (an index out of range). */
  datatype Outcome = Ok | Panic

  /** The index of the byte that holds the square of block (j, i): column-major. */
  function BlockByte(rowCount: int, j: nat, i: nat): nat {
    Mul(j, Count(rowCount)) + i
  }

  /**
   Placing block (j, i) does not panic: its byte is inside the buffer, and
   it is 0 or it names a square of the table whose 2x2 block lies on the map.
   */
  predicate BlockFits(ids: seq<byte>, squares: seq<Square>, rowCount: int, j: nat, i: nat) {
    var k := BlockByte(rowCount, j, i);
    k < |ids| && (ids[k] == 0 || (ids[k] - 1 < |squares| && BlockInGrid(2 * j, 2 * i)))
  }

  /** Some block of the colCount x rowCount plane makes Parse panic. */
  predicate ParsePanics(ids: seq<byte>, squares: seq<Square>, colCount: int, rowCount: int) {
    exists j: nat, i: nat :: j < Count(colCount) && i < Count(rowCount) && !BlockFits(ids, squares, rowCount, j, i)
  }

  /**
   The pillar number of cell (c, r) once every block before (j, i) in
   column-major order has been placed, p being the pillar number it had
   before. The cell belongs to block (c / 2, r / 2).
   */
  function MiniPillar(ids: seq<byte>, squares: seq<Square>, rowCount: int, p: Option<int>, c: int, r: int, j: nat, i: nat): Option<int> {
    if 0 <= c && 0 <= r && r / 2 < Count(rowCount) && (c / 2 < j || (c / 2 == j && r / 2 < i))
       && BlockByte(rowCount, c / 2, r / 2) < |ids|
    then PlaceAt(p, c, r, 2 * (c / 2), 2 * (r / 2), ids[BlockByte(rowCount, c / 2, r / 2)], squares)
    else p
  }

  /** MiniPillar advances by one block exactly as the loop's step places it. */
  lemma MiniPillarNext(ids: seq<byte>, squares: seq<Square>, rowCount: int, p: Option<int>, c: int, r: int, j: nat, i: nat)
    requires i < Count(rowCount) && BlockByte(rowCount, j, i) < |ids|
    ensures MiniPillar(ids, squares, rowCount, p, c, r, j, i + 1) ==
      PlaceAt(MiniPillar(ids, squares, rowCount, p, c, r, j, i), c, r, 2 * j, 2 * i, ids[BlockByte(rowCount, j, i)], squares)
  {
    if 2 * j <= c <= 2 * j + 1 && 2 * i <= r <= 2 * i + 1 {
      assert c / 2 == j && r / 2 == i;
    }
  }

  /** Finishing a column of blocks is starting the next one. */
  lemma MiniPillarColumnDone(ids: seq<byte>, squares: seq<Square>, rowCount: int, p: Option<int>, c: int, r: int, j: nat)
    ensures MiniPillar(ids, squares, rowCount, p, c, r, j, Count(rowCount)) == MiniPillar(ids, squares, rowCount, p, c, r, j + 1, 0)
  {
  }

  /**
   The cell that ParsePillars makes of a cell holding `cell` from its entry
   v, a pillar number plus one: v - 1 when v is not 0, else the cell as it was.
   */
  function PillarEntry(cell: Cell, v: u32): (r: Cell)
    ensures v != 0 ==> r.pillarNum == Some(v - 1)
    ensures v == 0 ==> r == cell
    ensures r.(pillarNum := cell.pillarNum) == cell
  {
    if v != 0 then cell.(pillarNum := Some(v - 1)) else cell
  }

  /** A dungeon map: 112x112 cells indexed [col, row]. */
  class Dungeon {
    const cells: array2<Cell>

    predicate Valid() {
      cells.Length0 == ColMax && cells.Length1 == RowMax
    }

    /** A map whose every cell has no attributes. */
    constructor New()
      ensures Valid() && fresh(cells)
      ensures forall c, r :: InGrid(c, r) ==> cells[c, r] == EmptyCell
    {
      cells := new Cell[ColMax, RowMax];
      new;
      var row := 0;
      while row < RowMax
        invariant 0 <= row <= RowMax
        invariant forall c, r :: InGrid(c, r) && r < row ==> cells[c, r] == EmptyCell
      {
        var col := 0;
        while col < ColMax
          invariant 0 <= col <= ColMax
          invariant forall c, r :: InGrid(c, r) && (r < row || (r == row && c < col)) ==> cells[c, r] == EmptyCell
        {
          cells[col, row] := EmptyCell;
          col := col + 1;
        }
        row := row + 1;
      }
    }

    /**
     Expands the colCount x rowCount square values of squareIdsPlus1 into
     pillar numbers, column by column. Only pillarNum is written. After a
     panic the map is of no interest (the program stops).
     */
    method Parse(squareIdsPlus1: seq<byte>, colCount: int, rowCount: int, squares: seq<Square>) returns (outcome: Outcome)
      requires Valid()
      modifies cells
      ensures outcome == if ParsePanics(squareIdsPlus1, squares, colCount, rowCount) then Panic else Ok
      ensures outcome == Ok ==> forall c, r :: InGrid(c, r) ==>
        cells[c, r] == old(cells[c, r]).(pillarNum :=
          MiniPillar(squareIdsPlus1, squares, rowCount, old(cells[c, r]).pillarNum, c, r, Count(colCount), 0))
    {
      var k := 0;
      var col := 0;
      var j := 0;
      while j < colCount
        invariant 0 <= j <= Count(colCount) && col == 2 * j && k == BlockByte(rowCount, j, 0)
        invariant forall jj: nat, ii: nat :: jj < j && ii < Count(rowCount) ==> BlockFits(squareIdsPlus1, squares, rowCount, jj, ii)
        invariant forall c, r :: InGrid(c, r) ==>
          cells[c, r] == old(cells[c, r]).(pillarNum := MiniPillar(squareIdsPlus1, squares, rowCount, old(cells[c, r]).pillarNum, c, r, j, 0))
      {
        var row := 0;
        var i := 0;
        while i < rowCount
          invariant 0 <= i <= Count(rowCount) && row == 2 * i && k == BlockByte(rowCount, j, i)
          invariant forall jj: nat, ii: nat :: (jj < j && ii < Count(rowCount)) || (jj == j && ii < i) ==>
            BlockFits(squareIdsPlus1, squares, rowCount, jj, ii)
          invariant forall c, r :: InGrid(c, r) ==>
            cells[c, r] == old(cells[c, r]).(pillarNum := MiniPillar(squareIdsPlus1, squares, rowCount, old(cells[c, r]).pillarNum, c, r, j, i))
        {
          var fits := PlaceBlock(squareIdsPlus1, squares, rowCount, j, i, col, row, k);
          if !fits {
            return Panic;
          }
          forall c, r | InGrid(c, r)
            ensures cells[c, r] == old(cells[c, r]).(pillarNum :=
              MiniPillar(squareIdsPlus1, squares, rowCount, old(cells[c, r]).pillarNum, c, r, j, i + 1))
          {
            MiniPillarNext(squareIdsPlus1, squares, rowCount, old(cells[c, r]).pillarNum, c, r, j, i);
          }
          row := row + 2;
          k := k + 1;
          i := i + 1;
        }
        forall c, r | InGrid(c, r)
          ensures cells[c, r] == old(cells[c, r]).(pillarNum :=
            MiniPillar(squareIdsPlus1, squares, rowCount, old(cells[c, r]).pillarNum, c, r, j + 1, 0))
        {
          MiniPillarColumnDone(squareIdsPlus1, squares, rowCount, old(cells[c, r]).pillarNum, c, r, j);
        }
        col := col + 2;
        j := j + 1;
      }
      return Ok;
    }

    /**
     One step of Parse: the square of block (j, i), read from byte k, is
     placed at top cell (col, row). The result tells whether the step runs
     without a panic.
     */
    method PlaceBlock(ids: seq<byte>, squares: seq<Square>, rowCount: int, j: nat, i: nat, col: int, row: int, k: nat)
      returns (fits: bool)
      requires Valid() && col == 2 * j && row == 2 * i && k == BlockByte(rowCount, j, i)
      modifies cells
      ensures fits == BlockFits(ids, squares, rowCount, j, i)
      ensures fits ==> forall c, r :: InGrid(c, r) ==>
        cells[c, r] == old(cells[c, r]).(pillarNum := PlaceAt(old(cells[c, r]).pillarNum, c, r, col, row, ids[k], squares))
    {
      if k >= |ids| {
        return false;
      }
      var squareNumPlus1 := ids[k];
      if squareNumPlus1 != 0 {
        var squareNum := squareNumPlus1 - 1;
        if squareNum >= |squares| || !BlockInGrid(col, row) {
          return false;
        }
        PlaceSquare(col, row, squares[squareNum]);
      }
      return true;
    }

    /**
     Places a square with top cell (col, row): its top, right, left and bottom
     pillar numbers go to (col, row), (col+1, row), (col, row+1) and
     (col+1, row+1); every other attribute and every other cell is kept.
     */
    method PlaceSquare(col: int, row: int, square: Square)
      requires Valid() && BlockInGrid(col, row)
      modifies cells
      ensures forall c, r :: InGrid(c, r) && col <= c <= col + 1 && row <= r <= row + 1 ==>
        cells[c, r] == old(cells[c, r]).(pillarNum := Some(Quadrant(square, c - col, r - row)))
      ensures forall c, r :: InGrid(c, r) && !(col <= c <= col + 1 && row <= r <= row + 1) ==>
        cells[c, r] == old(cells[c, r])
    {
      cells[col, row] := cells[col, row].(pillarNum := Some(square.pillarNumTop));
      cells[col + 1, row] := cells[col + 1, row].(pillarNum := Some(square.pillarNumRight));
      cells[col, row + 1] := cells[col, row + 1].(pillarNum := Some(square.pillarNumLeft));
      cells[col + 1, row + 1] := cells[col + 1, row + 1].(pillarNum := Some(square.pillarNumBottom));
    }

    /**
     Stores the pillar numbers of a 112x112 buffer of pillar numbers plus
     one, column-major: entry col*112 + row belongs to cell (col, row). A
     buffer shorter than 112*112 entries panics.
     */
    method ParsePillars(pillarIdsPlus1: seq<u32>) returns (outcome: Outcome)
      requires Valid()
      modifies cells
      ensures outcome == if |pillarIdsPlus1| < ColMax * RowMax then Panic else Ok
      ensures outcome == Ok ==> forall c, r :: InGrid(c, r) ==>
        cells[c, r] == PillarEntry(old(cells[c, r]), pillarIdsPlus1[c * RowMax + r])
    {
      var i := 0;
      var col := 0;
      while col < ColMax
        invariant 0 <= col <= ColMax && i == col * RowMax
        invariant i <= |pillarIdsPlus1|
        invariant forall c, r :: InGrid(c, r) ==>
          cells[c, r] == if c < col then PillarEntry(old(cells[c, r]), pillarIdsPlus1[c * RowMax + r]) else old(cells[c, r])
      {
        var row := 0;
        while row < RowMax
          invariant 0 <= row <= RowMax && i == col * RowMax + row
          invariant i <= |pillarIdsPlus1|
          invariant forall c, r :: InGrid(c, r) ==>
            cells[c, r] ==
              if c < col || (c == col && r < row) then PillarEntry(old(cells[c, r]), pillarIdsPlus1[c * RowMax + r])
              else old(cells[c, r])
        {
          if i >= |pillarIdsPlus1| {
            return Panic;
          }
          var pillarIdPlus1 := pillarIdsPlus1[i];
          if pillarIdPlus1 != 0 {
            var pillarNum := pillarIdPlus1 - 1;
            cells[col, row] := cells[col, row].(pillarNum := Some(pillarNum));
          }
          i := i + 1;
          row := row + 1;
        }
        col := col + 1;
      }
      return Ok;
    }

    /**
     Composites the colCount x rowCount corner of the map: the canvas is
     sized from the first pillar's height, then every cell with a pillar is
     drawn, row by row and left to right within a row, and followed by its
     arch overlay if its pillar has one. Indexing the pillar table or the
     map out of range is a panic.
     */
    method Image(m: Isometric.Metrics, colCount: int, rowCount: int, pillars: seq<Isometric.Pillar>)
      returns (img: Isometric.Rendered)
      requires Valid() && Isometric.ValidMetrics(m)
      ensures img == Isometric.Render(m, cells, colCount, rowCount, pillars)
    {
      if |pillars| == 0 {
        return Isometric.Panic;
      }
      var pillarHeight := pillars[0].height;
      var (mapWidth, mapHeight) := Isometric.CanvasSize(m, colCount, rowCount, pillarHeight);
      var draws := PaintRows(m, colCount, rowCount, mapWidth, pillarHeight, pillars);
      Isometric.PaintGridRowMajor(m, cells, pillars, Count(colCount), Count(rowCount), mapWidth, pillarHeight);
      if draws.None? {
        return Isometric.Panic;
      }
      return Isometric.Canvas(Isometric.Rect(0, 0, mapWidth, mapHeight), draws.value);
    }

    /**
     The loops of Image: the draws of the cells of the colCount x rowCount
     grid, row by row, or None at the first cell that panics.
     */
    method PaintRows(m: Isometric.Metrics, colCount: int, rowCount: int, mapWidth: int, pillarHeight: int, pillars: seq<Isometric.Pillar>)
      returns (draws: Option<seq<Isometric.Draw>>)
      requires Valid() && Isometric.ValidMetrics(m)
      ensures draws == Isometric.PaintGrid(m, cells, pillars, Count(colCount), Count(rowCount), mapWidth, pillarHeight)
    {
      var allDraws: seq<Isometric.Draw> := [];
      var row := 0;
      while row < rowCount
        invariant 0 <= row <= Count(rowCount)
        invariant Isometric.PaintGrid(m, cells, pillars, Count(colCount), row, mapWidth, pillarHeight) == Some(allDraws)
      {
        var rowDraws := DrawRow(m, colCount, row, mapWidth, pillarHeight, pillars);
        if rowDraws.None? {
          Isometric.PaintGridPanicsEarly(m, cells, pillars, Count(colCount), row + 1, Count(rowCount), mapWidth, pillarHeight);
          return None;
        }
        allDraws := allDraws + rowDraws.value;
        row := row + 1;
      }
      assert row == Count(rowCount);
      return Some(allDraws);
    }

    /**
     The inner loop of Image: the draws of the cells (0, row) ..
     (colCount-1, row), or None at the first of them that panics.
     */
    method DrawRow(m: Isometric.Metrics, colCount: int, row: int, mapWidth: int, pillarHeight: int, pillars: seq<Isometric.Pillar>)
      returns (draws: Option<seq<Isometric.Draw>>)
      requires Valid() && Isometric.ValidMetrics(m)
      ensures draws == Isometric.PaintRow(m, cells, pillars, Count(colCount), row, mapWidth, pillarHeight)
    {
      var rowDraws: seq<Isometric.Draw> := [];
      var col := 0;
      while col < colCount
        invariant 0 <= col <= Count(colCount)
        invariant Isometric.PaintRow(m, cells, pillars, col, row, mapWidth, pillarHeight) == Some(rowDraws)
      {
        var cellDraws := DrawCell(m, col, row, mapWidth, pillarHeight, pillars);
        if cellDraws.None? {
          Isometric.PaintRowPanicsEarly(m, cells, pillars, col + 1, Count(colCount), row, mapWidth, pillarHeight);
          return None;
        }
        rowDraws := rowDraws + cellDraws.value;
        col := col + 1;
      }
      return Some(rowDraws);
    }

    /**
     The body of the inner loop of Image: the draws of cell (col, row), or
     None when the cell is off the map or its pillar is not in the pillar table.
     */
    method DrawCell(m: Isometric.Metrics, col: int, row: int, mapWidth: int, pillarHeight: int, pillars: seq<Isometric.Pillar>)
      returns (draws: Option<seq<Isometric.Draw>>)
      requires Valid() && Isometric.ValidMetrics(m)
      ensures draws == Isometric.CellPaint(m, cells, pillars, col, row, mapWidth, pillarHeight)
    {
      if col < 0 || col >= ColMax || row < 0 || row >= RowMax {
        return None;
      }
      var pillarNum := cells[col, row].pillarNum;
      if pillarNum.None? {
        return Some([]);
      }
      var rect := Isometric.GetPillarRect(m, col, row, mapWidth, pillarHeight);
      if pillarNum.value < 0 || pillarNum.value >= |pillars| {
        return None;
      }
      var cellDraws := [Isometric.Draw(rect, Isometric.PillarImage(pillarNum.value))];
      var (archId, ok) := Isometric.GetArchId(pillarNum.value);
      if ok {
        cellDraws := cellDraws + [Isometric.Draw(rect, Isometric.ArchImage(archId))];
        assert cellDraws == [Isometric.Draw(rect, Isometric.PillarImage(pillarNum.value)), Isometric.Draw(rect, Isometric.ArchImage(archId))];
      }
      return Some(cellDraws);
    }
  }

  /**
   Byte k of the buffer goes to the block with top cell
   (2 * (k / rowCount), 2 * (k % rowCount)): after a parse that does not
   panic, the cell at offset (dx, dy) of that block holds the quadrant of
   square ids[k] - 1 when ids[k] is not 0 (and the block is on the map),
   and its old pillar number when it is 0.
   */
  lemma MiniParsedByte(ids: seq<byte>, squares: seq<Square>, colCount: int, rowCount: int, p: Option<int>, k: nat, dx: nat, dy: nat)
    requires !ParsePanics(ids, squares, colCount, rowCount)
    requires k < Mul(Count(colCount), Count(rowCount)) && dx < 2 && dy < 2
    ensures k < |ids| && (ids[k] == 0 || ids[k] - 1 < |squares|)
    ensures ids[k] != 0 ==> InGrid(2 * (k / Count(rowCount)) + dx, 2 * (k % Count(rowCount)) + dy)
    ensures MiniPillar(ids, squares, rowCount, p, 2 * (k / Count(rowCount)) + dx, 2 * (k % Count(rowCount)) + dy, Count(colCount), 0) ==
      if ids[k] == 0 then p else Some(Quadrant(squares[ids[k] - 1], dx, dy))
  {
    var rows := Count(rowCount);
    IndexSplit(k, Count(colCount), rows);
    var j, i := k / rows, k % rows;
    assert BlockFits(ids, squares, rowCount, j, i);
    var col, row := 2 * j + dx, 2 * i + dy;
    assert col / 2 == j && row / 2 == i;
    assert BlockByte(rowCount, j, i) == k;
  }

  /** An all-zero buffer places no pillar: every cell keeps its pillar number. */
  lemma MiniZeroPlane(ids: seq<byte>, squares: seq<Square>, colCount: int, rowCount: int, p: Option<int>, c: int, r: int)
    requires forall k :: 0 <= k < |ids| ==> ids[k] == 0
    ensures MiniPillar(ids, squares, rowCount, p, c, r, Count(colCount), 0) == p
  {
  }
}
