/**
 The full DUN format, read from a little-endian stream of uint16 values:

   dunQWidth, dunQHeight                      the header
   squareNumsPlus1  [dunQHeight][dunQWidth]   one square per 2x2 block, 0 = none
   unknown          [dunHeight][dunWidth]     optional dense planes, one value
   dunMonsterIDs    [dunHeight][dunWidth]     per cell, row-major, where
   dunObjectIDs     [dunHeight][dunWidth]     dunWidth = 2*dunQWidth and
   transparencies   [dunHeight][dunWidth]     dunHeight = 2*dunQHeight

 The file is a sequence of bytes; the reader is a byte offset into it. The
 specification of Parse is pointwise: ParsedCell says what every cell holds
 afterwards, in terms of how far the reading got (SquaresRead, PlaneRead).
 */
module Dun {
  import opened Cells
  import Levels

  /** The errors Parse returns: the reader's two end-of-input errors and an unknown level directory. */
  datatype Error = EOF | UnexpectedEOF | InvalidDunDir(dir: string)

  /** How a parse ends: success, a returned error, or a Go runtime panic (an index out of range). */
  datatype Outcome = Ok | Failed(err: Error) | Panic

  /**
   What Parse obtains about a level from outside the DUN file: the squares of
   the level's TIL table and the start coordinates of dunconf.
   */
  datatype LevelConf = LevelConf(squares: seq<Square>, colStart: int, rowStart: int)

  /** The four optional planes after the square plane, in file order. */
  datatype Plane = Unknown | DunMonsterId | DunObjectId | Transparency {
    /** The position of the plane in the file. */
    function Index(): nat {
      match this
      case Unknown => 0
      case DunMonsterId => 1
      case DunObjectId => 2
      case Transparency => 3
    }

    /** The attribute of a cell that this plane fills. */
    function Get(cell: Cell): Option<int> {
      match this
      case Unknown => cell.unknown
      case DunMonsterId => cell.dunMonsterId
      case DunObjectId => cell.dunObjectId
      case Transparency => cell.transparency
    }

    /** The cell with this plane's attribute set to v and every other attribute kept. */
    function Set(cell: Cell, v: int): (r: Cell)
      ensures Get(r) == Some(v) && r.pillarNum == cell.pillarNum
      ensures forall q: Plane :: q != this ==> q.Get(r) == q.Get(cell)
    {
      match this
      case Unknown => cell.(unknown := Some(v))
      case DunMonsterId => cell.(dunMonsterId := Some(v))
      case DunObjectId => cell.(dunObjectId := Some(v))
      case Transparency => cell.(transparency := Some(v))
    }
  }

  /** The result of reading one uint16: its value, or the reader's error. */
  datatype Read = Value(v: nat) | Short(err: Error)

  /**
   binary.Read of one little-endian uint16 at byte offset pos: with no byte
   left it is EOF, with one byte left UnexpectedEOF.
   */
  function ReadU16(data: seq<byte>, pos: nat): Read
    requires pos <= |data|
  {
    if pos + 2 <= |data| then Value(data[pos] as int + 256 * data[pos + 1] as int)
    else if pos == |data| then Short(EOF)
    else Short(UnexpectedEOF)
  }

  // The header and the layout of the stream that follows it.

  function QWidth(data: seq<byte>): nat
    requires |data| >= 4
  {
    data[0] as int + 256 * data[1] as int
  }

  function QHeight(data: seq<byte>): nat
    requires |data| >= 4
  {
    data[2] as int + 256 * data[3] as int
  }

  /** The number of values in the square plane. */
  function SquareCount(data: seq<byte>): nat
    requires |data| >= 4
  {
    Mul(QHeight(data), QWidth(data))
  }

  /** The number of values in each trailing plane: dunWidth * dunHeight. */
  function PlaneLen(data: seq<byte>): nat
    requires |data| >= 4
  {
    Mul(2 * QHeight(data), 2 * QWidth(data))
  }

  /** The number of whole uint16 values after the header. */
  function WordsAvailable(data: seq<byte>): nat
    requires |data| >= 4
  {
    (|data| - 4) / 2
  }

  /** The error of the read that runs out of input: EOF on an even remainder, else UnexpectedEOF. */
  function ShortReadError(data: seq<byte>): Error
    requires |data| >= 4
  {
    if (|data| - 4) % 2 == 0 then EOF else UnexpectedEOF
  }

  /** The n-th uint16 value after the header. */
  function Word(data: seq<byte>, n: nat): nat
    requires |data| >= 4 && n < WordsAvailable(data)
  {
    data[4 + 2 * n] as int + 256 * data[5 + 2 * n] as int
  }

  // The square plane.

  /** The number of square values read before the plane ends or the input does. */
  function SquaresRead(data: seq<byte>): nat
    requires |data| >= 4
  {
    if WordsAvailable(data) < SquareCount(data) then WordsAvailable(data) else SquareCount(data)
  }

  /**
   Placing the n-th square does not panic: it is 0, or it names a square of
   the table and its 2x2 block lies on the map.
   */
  predicate SquareFits(data: seq<byte>, conf: LevelConf, n: nat)
    requires |data| >= 4 && n < SquaresRead(data)
  {
    var s := Word(data, n);
    s == 0 ||
    (s - 1 < |conf.squares| &&
     BlockInGrid(conf.colStart + 2 * (n % QWidth(data)), conf.rowStart + 2 * (n / QWidth(data))))
  }

  /** Some square read from the file makes the parse panic. */
  predicate SquaresPanic(data: seq<byte>, conf: LevelConf)
    requires |data| >= 4
  {
    exists n: nat :: n < SquaresRead(data) && !SquareFits(data, conf, n)
  }

  /**
   The pillar number of cell (c, r) once the first `limit` squares have been
   placed, p being the pillar number it had before. Block (i, j) of the plane
   is the limit-th square when Mul(i, dunQWidth) + j == limit; its cells are
   (colStart + 2j + dx, rowStart + 2i + dy) for dx, dy in {0, 1}.
   */
  function SquarePillar(data: seq<byte>, conf: LevelConf, p: Option<int>, c: int, r: int, limit: nat): Option<int>
    requires |data| >= 4 && limit <= SquaresRead(data)
  {
    var dc, dr := c - conf.colStart, r - conf.rowStart;
    if 0 <= dc < 2 * QWidth(data) && 0 <= dr < 2 * QHeight(data) && Mul(dr / 2, QWidth(data)) + dc / 2 < limit then
      var s := Word(data, Mul(dr / 2, QWidth(data)) + dc / 2);
      if s != 0 && s - 1 < |conf.squares| then Some(Quadrant(conf.squares[s - 1], dc % 2, dr % 2)) else p
    else p
  }

  // The trailing planes.

  /**
   The number of values of a trailing plane that the input holds: all of them,
   none (when the input ends before the plane), or the part before the end.
   */
  function PlaneRead(data: seq<byte>, plane: Plane): (n: nat)
    requires |data| >= 4
    ensures n <= PlaneLen(data)
  {
    var t := WordsAvailable(data) - SquareCount(data) - Mul(plane.Index(), PlaneLen(data));
    if WordsAvailable(data) < SquareCount(data) || t <= 0 then 0
    else if t >= PlaneLen(data) then PlaneLen(data)
    else t
  }

  /** The cell the k-th value of a trailing plane goes to: row-major from (colStart, rowStart). */
  function PlaneCell(data: seq<byte>, conf: LevelConf, k: nat): (int, int)
    requires |data| >= 4 && k < PlaneLen(data)
  {
    (conf.colStart + k % (2 * QWidth(data)), conf.rowStart + k / (2 * QWidth(data)))
  }

  /** One of the first `limit` values of a trailing plane goes to a cell off the map. */
  predicate PlanePanics(data: seq<byte>, conf: LevelConf, limit: nat)
    requires |data| >= 4 && limit <= PlaneLen(data)
  {
    exists k: nat :: k < limit && !InGrid(PlaneCell(data, conf, k).0, PlaneCell(data, conf, k).1)
  }

  /** Cell (c, r) once the first `limit` values of a trailing plane have been stored. */
  function PlaneApply(plane: Plane, cell: Cell, c: int, r: int, data: seq<byte>, conf: LevelConf, limit: nat): Cell
    requires |data| >= 4 && limit <= PlaneRead(data, plane)
  {
    var dw := 2 * QWidth(data);
    var dc, dr := c - conf.colStart, r - conf.rowStart;
    if 0 <= dc < dw && 0 <= dr < 2 * QHeight(data) && Mul(dr, dw) + dc < limit then
      plane.Set(cell, PlaneValue(data, plane, Mul(dr, dw) + dc))
    else cell
  }

  /** The k-th value of a trailing plane. */
  function PlaneValue(data: seq<byte>, plane: Plane, k: nat): nat
    requires |data| >= 4 && k < PlaneRead(data, plane)
  {
    Word(data, SquareCount(data) + Mul(plane.Index(), PlaneLen(data)) + k)
  }

  /**
   How reading a trailing plane that the input reaches ends: None when the
   plane is complete and the next one follows, otherwise the parse's outcome.
   The input ending exactly where the plane starts is a success.
   */
  function PlaneStop(data: seq<byte>, conf: LevelConf, plane: Plane): Option<Outcome>
    requires |data| >= 4
    requires WordsAvailable(data) >= SquareCount(data) + Mul(plane.Index(), PlaneLen(data))
  {
    var n := PlaneRead(data, plane);
    if PlanePanics(data, conf, n) then Some(Panic)
    else if n == PlaneLen(data) then None
    else if n == 0 && (|data| - 4) % 2 == 0 then Some(Ok)
    else Some(Failed(ShortReadError(data)))
  }

  /**
   The trailing planes end well: they are empty or all four are present, or
   the input stops exactly at the start of one of them.
   */
  predicate CleanEnd(data: seq<byte>)
    requires |data| >= 4 && WordsAvailable(data) >= SquareCount(data)
  {
    var n, t := PlaneLen(data), WordsAvailable(data) - SquareCount(data);
    n == 0 || t >= 4 * n || (t % n == 0 && (|data| - 4) % 2 == 0)
  }

  /** How reading the trailing planes ends, once the square plane is complete. */
  function PlanesOutcome(data: seq<byte>, conf: LevelConf): Outcome
    requires |data| >= 4 && WordsAvailable(data) >= SquareCount(data)
  {
    if PlanePanics(data, conf, PlaneRead(data, Unknown)) then Panic
    else if CleanEnd(data) then Ok
    else Failed(ShortReadError(data))
  }

  /** Cell (c, r) once the trailing planes, as far as the input holds them, have been stored. */
  function PlanesApplied(cell: Cell, c: int, r: int, data: seq<byte>, conf: LevelConf): Cell
    requires |data| >= 4
  {
    var c1 := PlaneApply(Unknown, cell, c, r, data, conf, PlaneRead(data, Unknown));
    var c2 := PlaneApply(DunMonsterId, c1, c, r, data, conf, PlaneRead(data, DunMonsterId));
    var c3 := PlaneApply(DunObjectId, c2, c, r, data, conf, PlaneRead(data, DunObjectId));
    PlaneApply(Transparency, c3, c, r, data, conf, PlaneRead(data, Transparency))
  }

  // The whole parse.

  /** How Parse ends on a file at relDunPath with contents data. */
  function ParseOutcome(relDunPath: string, data: seq<byte>, conf: LevelConf): Outcome {
    if |data| < 4 then Failed(if |data| == 0 then EOF else UnexpectedEOF)
    else if Levels.GetLevelName(relDunPath).Failure? then Failed(InvalidDunDir(Levels.GetLevelName(relDunPath).error))
    else if SquaresPanic(data, conf) then Panic
    else if WordsAvailable(data) < SquareCount(data) then Failed(ShortReadError(data))
    else PlanesOutcome(data, conf)
  }

  /** Cell (c, r) after a parse that did not panic, given the cell it was before. */
  function ParsedCell(cell: Cell, c: int, r: int, relDunPath: string, data: seq<byte>, conf: LevelConf): Cell {
    if |data| < 4 || Levels.GetLevelName(relDunPath).Failure? then cell
    else
      PlanesApplied(cell.(pillarNum := SquarePillar(data, conf, cell.pillarNum, c, r, SquaresRead(data))), c, r, data, conf)
  }

  // Steps of the reading loops, one value at a time.

  /** Two cells of a region of width w have the same row-major index only if they are the same cell. */
  lemma RowMajorUnique(a: nat, b: int, i: nat, j: int, w: nat)
    requires 0 <= b < w && 0 <= j < w && Mul(a, w) + b == Mul(i, w) + j
    ensures a == i && b == j
  {
    DivModOf(a, b, w);
    DivModOf(i, j, w);
  }

  /** SquarePillar advances by one square exactly as the loop's step does. */
  lemma SquarePillarNext(data: seq<byte>, conf: LevelConf, p: Option<int>, c: int, r: int, i: nat, j: nat, k: nat)
    requires |data| >= 4 && j < QWidth(data) && i < QHeight(data)
    requires k == Mul(i, QWidth(data)) + j && k < SquaresRead(data)
    ensures
      SquarePillar(data, conf, p, c, r, k + 1) == PlaceAt(SquarePillar(data, conf, p, c, r, k), c, r, conf.colStart + 2 * j, conf.rowStart + 2 * i, Word(data, k), conf.squares)
  {
    var w := QWidth(data);
    var dc, dr := c - conf.colStart, r - conf.rowStart;
    if 0 <= dc < 2 * w && 0 <= dr < 2 * QHeight(data) && Mul(dr / 2, w) + dc / 2 == Mul(i, w) + j {
      RowMajorUnique(dr / 2, dc / 2, i, j, w);
    }
    if conf.colStart + 2 * j <= c <= conf.colStart + 2 * j + 1 && conf.rowStart + 2 * i <= r <= conf.rowStart + 2 * i + 1 {
      assert dc / 2 == j && dr / 2 == i;
    }
  }

  /** Storing value k of a trailing plane changes cell (colStart + j, rowStart + i) and no other. */
  lemma PlaneApplyStep(plane: Plane, cell: Cell, c: int, r: int, data: seq<byte>, conf: LevelConf, i: nat, j: nat, k: nat)
    requires |data| >= 4 && j < 2 * QWidth(data) && i < 2 * QHeight(data)
    requires k == Mul(i, 2 * QWidth(data)) + j && k < PlaneRead(data, plane)
    ensures
      PlaneApply(plane, cell, c, r, data, conf, k + 1) ==
        if c == conf.colStart + j && r == conf.rowStart + i then
          plane.Set(PlaneApply(plane, cell, c, r, data, conf, k), PlaneValue(data, plane, k))
        else PlaneApply(plane, cell, c, r, data, conf, k)
  {
    var w := 2 * QWidth(data);
    var dc, dr := c - conf.colStart, r - conf.rowStart;
    if 0 <= dc < w && 0 <= dr < 2 * QHeight(data) && Mul(dr, w) + dc == Mul(i, w) + j {
      RowMajorUnique(dr, dc, i, j, w);
    }
  }

  /** The square loop's step on one cell: placing square k = (i, j) after the first k gives the first k + 1. */
  lemma SquareStep(data: seq<byte>, conf: LevelConf, orig: Cell, before: Cell, after: Cell, c: int, r: int, i: nat, j: nat, k: nat)
    requires |data| >= 4 && j < QWidth(data) && i < QHeight(data)
    requires k == Mul(i, QWidth(data)) + j && k < SquaresRead(data)
    requires before == orig.(pillarNum := SquarePillar(data, conf, orig.pillarNum, c, r, k))
    requires after == before.(pillarNum := PlaceAt(before.pillarNum, c, r, conf.colStart + 2 * j, conf.rowStart + 2 * i, Word(data, k), conf.squares))
    ensures after == orig.(pillarNum := SquarePillar(data, conf, orig.pillarNum, c, r, k + 1))
  {
    SquarePillarNext(data, conf, orig.pillarNum, c, r, i, j, k);
  }

  /** A plane loop's step on one cell: storing value k = (i, j) after the first k gives the first k + 1. */
  lemma PlaneStep(plane: Plane, orig: Cell, before: Cell, after: Cell, c: int, r: int, data: seq<byte>, conf: LevelConf, i: nat, j: nat, k: nat)
    requires |data| >= 4 && j < 2 * QWidth(data) && i < 2 * QHeight(data)
    requires k == Mul(i, 2 * QWidth(data)) + j && k < PlaneRead(data, plane)
    requires before == PlaneApply(plane, orig, c, r, data, conf, k)
    requires after == if c == conf.colStart + j && r == conf.rowStart + i then plane.Set(before, PlaneValue(data, plane, k)) else before
    ensures after == PlaneApply(plane, orig, c, r, data, conf, k + 1)
  {
    PlaneApplyStep(plane, orig, c, r, data, conf, i, j, k);
  }

  /**
   The reader at flat index k of a trailing plane the input reaches: a whole
   value there is the plane's k-th word; a short read means the input holds
   exactly k values of the plane.
   */
  lemma PlaneValueRead(data: seq<byte>, plane: Plane, k: nat)
    requires |data| >= 4 && WordsAvailable(data) >= SquareCount(data) + Mul(plane.Index(), PlaneLen(data))
    requires k < PlaneLen(data) && k <= PlaneRead(data, plane)
    ensures
      var base := SquareCount(data) + Mul(plane.Index(), PlaneLen(data));
      var p := 4 + 2 * (base + k);
      p <= |data| &&
      (ReadU16(data, p).Value? ==> k < PlaneRead(data, plane) && ReadU16(data, p).v == PlaneValue(data, plane, k)) &&
      (ReadU16(data, p).Short? ==> PlaneRead(data, plane) == k && (ReadU16(data, p).err == EOF <==> (|data| - 4) % 2 == 0))
  {
  }

  /** A short read at flat index k of a trailing plane: success only when k is 0 and no byte is left over. */
  lemma PlaneShortStop(data: seq<byte>, conf: LevelConf, plane: Plane, k: nat)
    requires |data| >= 4 && WordsAvailable(data) >= SquareCount(data) + Mul(plane.Index(), PlaneLen(data))
    requires PlaneRead(data, plane) == k < PlaneLen(data) && !PlanePanics(data, conf, k)
    ensures PlaneStop(data, conf, plane) ==
      if k == 0 && (|data| - 4) % 2 == 0 then Some(Ok) else Some(Failed(ShortReadError(data)))
  {
  }

  /** Value k of a trailing plane panics within the first `limit` values exactly when some earlier one does or k's cell is off the map. */
  lemma PlanePanicAt(data: seq<byte>, conf: LevelConf, k: nat, limit: nat)
    requires |data| >= 4 && k < limit <= PlaneLen(data)
    ensures !InGrid(PlaneCell(data, conf, k).0, PlaneCell(data, conf, k).1) ==> PlanePanics(data, conf, limit)
    ensures limit == k + 1 ==>
      (PlanePanics(data, conf, limit) <==> PlanePanics(data, conf, k) || !InGrid(PlaneCell(data, conf, k).0, PlaneCell(data, conf, k).1))
  {
  }

  /**
   A trailing plane read to its end without a panic is followed by the next
   one, which the input reaches and which cannot panic either.
   */
  lemma PlaneDone(data: seq<byte>, conf: LevelConf, plane: Plane, next: Plane)
    requires |data| >= 4 && WordsAvailable(data) >= SquareCount(data) + Mul(plane.Index(), PlaneLen(data))
    requires PlaneStop(data, conf, plane) == None && next.Index() == plane.Index() + 1
    ensures WordsAvailable(data) >= SquareCount(data) + Mul(next.Index(), PlaneLen(data))
    ensures Mul(next.Index(), PlaneLen(data)) == Mul(plane.Index(), PlaneLen(data)) + PlaneLen(data)
    ensures !PlanePanics(data, conf, PlaneLen(data))
    ensures PlaneStop(data, conf, next) != Some(Panic)
  {
    MulIsProduct(plane.Index(), PlaneLen(data));
    MulIsProduct(next.Index(), PlaneLen(data));
    PlanePanicsMono(data, conf, PlaneRead(data, next), PlaneLen(data));
  }

  /** A trailing plane that panics within its first a values panics within its first b >= a. */
  lemma PlanePanicsMono(data: seq<byte>, conf: LevelConf, a: nat, b: nat)
    requires |data| >= 4 && a <= b <= PlaneLen(data)
    ensures PlanePanics(data, conf, a) ==> PlanePanics(data, conf, b)
  {
  }

  /** A dungeon map: 112x112 cells indexed [col, row]. */
  class Dungeon {
    const cells: array2<Cell>

    predicate Valid() {
      cells.Length0 == ColMax && cells.Length1 == RowMax
    }

    /** A map whose every cell has no attributes. */
    constructor New()
      ensures Valid() && fresh(cells)
      ensures forall c, r :: InGrid(c, r) ==> cells[c, r] == EmptyCell
    {
      cells := new Cell[ColMax, RowMax];
      new;
      var row := 0;
      while row < RowMax
        invariant 0 <= row <= RowMax
        invariant forall c, r :: InGrid(c, r) && r < row ==> cells[c, r] == EmptyCell
      {
        var col := 0;
        while col < ColMax
          invariant 0 <= col <= ColMax
          invariant forall c, r :: InGrid(c, r) && (r < row || (r == row && c < col)) ==> cells[c, r] == EmptyCell
        {
          cells[col, row] := EmptyCell;
          col := col + 1;
        }
        row := row + 1;
      }
    }

    /**
     Parses the DUN file at relDunPath, whose contents are data, into the map:
     each square is expanded into the pillar numbers of its 2x2 block, then
     the trailing planes fill the other attributes. After a panic the map is
     of no interest (the program stops); otherwise every cell is as
     ParsedCell says, also when an error is returned.
     */
    method Parse(relDunPath: string, data: seq<byte>, conf: LevelConf) returns (outcome: Outcome)
      requires Valid()
      modifies cells
      ensures outcome == ParseOutcome(relDunPath, data, conf)
      ensures outcome != Panic ==>
        forall c, r :: InGrid(c, r) ==> cells[c, r] == ParsedCell(old(cells[c, r]), c, r, relDunPath, data, conf)
    {
      if |data| < 4 {
        return Failed(if |data| == 0 then EOF else UnexpectedEOF);
      }
      var nameWithoutExt := Levels.GetLevelName(relDunPath);
      if nameWithoutExt.Failure? {
        return Failed(InvalidDunDir(nameWithoutExt.error));
      }
      var stop := ReadSquares(data, conf);
      if stop.Some? {
        return stop.value;
      }
      outcome := ReadPlanes(data, conf);
    }

    /**
     Reads the four trailing planes in file order, each starting where the
     previous one ended; any stop ends the parse.
     */
    method ReadPlanes(data: seq<byte>, conf: LevelConf) returns (outcome: Outcome)
      requires Valid() && |data| >= 4 && WordsAvailable(data) >= SquareCount(data)
      modifies cells
      ensures outcome == PlanesOutcome(data, conf)
      ensures outcome != Panic ==>
        forall c, r :: InGrid(c, r) ==> cells[c, r] == PlanesApplied(old(cells[c, r]), c, r, data, conf)
    {
      var pos := 4 + 2 * SquareCount(data);
      var stop;
      stop, pos := ReadPlane(Unknown, data, conf, pos);
      if stop.Some? {
        if stop.value != Panic {
          StopOutcome(data, conf, Unknown);
          StoppedAt(data, conf, Unknown);
        }
        return stop.value;
      }
      PlaneDone(data, conf, Unknown, DunMonsterId);
      stop, pos := ReadPlane(DunMonsterId, data, conf, pos);
      if stop.Some? {
        StopOutcome(data, conf, DunMonsterId);
        StoppedAt(data, conf, DunMonsterId);
        return stop.value;
      }
      PlaneDone(data, conf, DunMonsterId, DunObjectId);
      stop, pos := ReadPlane(DunObjectId, data, conf, pos);
      if stop.Some? {
        StopOutcome(data, conf, DunObjectId);
        StoppedAt(data, conf, DunObjectId);
        return stop.value;
      }
      PlaneDone(data, conf, DunObjectId, Transparency);
      stop, pos := ReadPlane(Transparency, data, conf, pos);
      if stop.Some? {
        StopOutcome(data, conf, Transparency);
        return stop.value;
      }
      return Ok;
    }

    /**
     Reads the square plane, dunQHeight rows of dunQWidth values, placing
     square (i, j) at block (colStart + 2j, rowStart + 2i). The result is None
     when the whole plane was read, else how the parse ends.
     */
    method ReadSquares(data: seq<byte>, conf: LevelConf) returns (stop: Option<Outcome>)
      requires Valid() && |data| >= 4
      modifies cells
      ensures stop ==
        if SquaresPanic(data, conf) then Some(Panic)
        else if WordsAvailable(data) < SquareCount(data) then Some(Failed(ShortReadError(data)))
        else None
      ensures stop != Some(Panic) ==> forall c, r :: InGrid(c, r) ==>
        cells[c, r] == old(cells[c, r]).(pillarNum := SquarePillar(data, conf, old(cells[c, r]).pillarNum, c, r, SquaresRead(data)))
    {
      var dunQWidth := data[0] as int + 256 * data[1] as int;
      var dunQHeight := data[2] as int + 256 * data[3] as int;
      assert dunQWidth == QWidth(data) && dunQHeight == QHeight(data);
      var pos := 4;
      ghost var k := 0;
      var row := conf.rowStart;
      var i := 0;
      while i < dunQHeight
        invariant 0 <= i <= dunQHeight && row == conf.rowStart + 2 * i
        invariant k == Mul(i, QWidth(data)) && pos == 4 + 2 * k && k <= SquaresRead(data)
        invariant forall n: nat :: n < k ==> SquareFits(data, conf, n)
        invariant forall c, r :: InGrid(c, r) ==>
          cells[c, r] == old(cells[c, r]).(pillarNum := SquarePillar(data, conf, old(cells[c, r]).pillarNum, c, r, k))
      {
        var col := conf.colStart;
        var j := 0;
        while j < dunQWidth
          invariant 0 <= j <= dunQWidth && col == conf.colStart + 2 * j
          invariant k == Mul(i, QWidth(data)) + j && pos == 4 + 2 * k && k <= SquaresRead(data)
          invariant forall n: nat :: n < k ==> SquareFits(data, conf, n)
          invariant forall c, r :: InGrid(c, r) ==>
            cells[c, r] == old(cells[c, r]).(pillarNum := SquarePillar(data, conf, old(cells[c, r]).pillarNum, c, r, k))
        {
          LexBelow(i, j, dunQHeight, 0, dunQWidth);
          label step:
          stop := ReadSquare(data, conf, i, j, k, col, row, pos);
          if stop.Some? {
            if stop.value == Panic {
              assert !SquareFits(data, conf, k);
            } else {
              SquaresShort(data, conf, k);
            }
            return;
          }
          forall c, r | InGrid(c, r)
            ensures cells[c, r] == old(cells[c, r]).(pillarNum := SquarePillar(data, conf, old(cells[c, r]).pillarNum, c, r, k + 1))
          {
            SquareStep(data, conf, old(cells[c, r]), old@step(cells[c, r]), cells[c, r], c, r, i, j, k);
          }
          pos := pos + 2;
          k := k + 1;
          col := col + 2;
          j := j + 1;
        }
        row := row + 2;
        i := i + 1;
      }
      assert k == SquareCount(data);
      return None;
    }

    /**
     One step of the square loop: reads the value of square (i, j) at offset
     pos. A short read ends the parse with the reader's error; a value naming
     no square of the table, or a block off the map, panics; otherwise the
     the square's quadrants go to the block at (col, row).
     */
    method ReadSquare(data: seq<byte>, conf: LevelConf, i: nat, j: nat, ghost k: nat, col: int, row: int, pos: nat) returns (stop: Option<Outcome>)
      requires Valid() && |data| >= 4 && i < QHeight(data) && j < QWidth(data)
      requires col == conf.colStart + 2 * j && row == conf.rowStart + 2 * i
      requires k == Mul(i, QWidth(data)) + j && pos == 4 + 2 * k && k <= SquaresRead(data)
      modifies cells
      ensures
        stop == if k == SquaresRead(data) then Some(Failed(ShortReadError(data)))
                else if !SquareFits(data, conf, k) then Some(Panic)
                else None
      ensures stop.Some? && stop != Some(Panic) ==> unchanged(cells)
      ensures stop.None? ==> forall c, r :: InGrid(c, r) ==>
        cells[c, r] == old(cells[c, r]).(pillarNum := PlaceAt(old(cells[c, r]).pillarNum, c, r, col, row, Word(data, k), conf.squares))
    {
      LexBelow(i, j, QHeight(data), 0, QWidth(data));
      DivModOf(i, j, QWidth(data));
      var x := ReadU16(data, pos);
      if x.Short? {
        return Some(Failed(x.err));
      }
      var squareNumPlus1 := x.v;
      if squareNumPlus1 != 0 {
        if squareNumPlus1 - 1 >= |conf.squares| || !BlockInGrid(col, row) {
          return Some(Panic);
        }
        PlaceSquare(col, row, conf.squares[squareNumPlus1 - 1]);
      }
      return None;
    }

    /**
     Places a square with top cell (col, row): its top, right, left and bottom
     pillar numbers go to (col, row), (col+1, row), (col, row+1) and
     (col+1, row+1); every other attribute and every other cell is kept.
     */
    method PlaceSquare(col: int, row: int, square: Square)
      requires Valid() && BlockInGrid(col, row)
      modifies cells
      ensures forall c, r :: InGrid(c, r) && col <= c <= col + 1 && row <= r <= row + 1 ==>
        cells[c, r] == old(cells[c, r]).(pillarNum := Some(Quadrant(square, c - col, r - row)))
      ensures forall c, r :: InGrid(c, r) && !(col <= c <= col + 1 && row <= r <= row + 1) ==>
        cells[c, r] == old(cells[c, r])
    {
      cells[col, row] := cells[col, row].(pillarNum := Some(square.pillarNumTop));
      cells[col + 1, row] := cells[col + 1, row].(pillarNum := Some(square.pillarNumRight));
      cells[col, row + 1] := cells[col, row + 1].(pillarNum := Some(square.pillarNumLeft));
      cells[col + 1, row + 1] := cells[col + 1, row + 1].(pillarNum := Some(square.pillarNumBottom));
    }

    /**
     Reads one trailing plane, row-major, into the attribute `plane` of the
     cells from (colStart, rowStart); pos is the reader's offset at the start
     of the plane and next its offset afterwards.
     */
    method ReadPlane(plane: Plane, data: seq<byte>, conf: LevelConf, pos: nat) returns (stop: Option<Outcome>, next: nat)
      requires Valid()
      requires |data| >= 4 && WordsAvailable(data) >= SquareCount(data) + Mul(plane.Index(), PlaneLen(data))
      requires pos == 4 + 2 * (SquareCount(data) + Mul(plane.Index(), PlaneLen(data)))
      modifies cells
      ensures stop == PlaneStop(data, conf, plane)
      ensures stop.None? ==> next == pos + 2 * PlaneLen(data)
      ensures stop != Some(Panic) ==>
        forall c, r :: InGrid(c, r) ==> cells[c, r] == PlaneApply(plane, old(cells[c, r]), c, r, data, conf, PlaneRead(data, plane))
    {
      var dunWidth := 2 * (data[0] as int + 256 * data[1] as int);
      var dunHeight := 2 * (data[2] as int + 256 * data[3] as int);
      assert dunWidth == 2 * QWidth(data) && dunHeight == 2 * QHeight(data);
      ghost var k := 0;
      next := pos;
      var row := conf.rowStart;
      var i := 0;
      while i < dunHeight
        invariant 0 <= i <= dunHeight && row == conf.rowStart + i
        invariant k == Mul(i, 2 * QWidth(data)) && next == pos + 2 * k && k <= PlaneRead(data, plane)
        invariant !PlanePanics(data, conf, k)
        invariant forall c, r :: InGrid(c, r) ==> cells[c, r] == PlaneApply(plane, old(cells[c, r]), c, r, data, conf, k)
      {
        var col := conf.colStart;
        var j := 0;
        while j < dunWidth
          invariant 0 <= j <= dunWidth && col == conf.colStart + j
          invariant k == Mul(i, 2 * QWidth(data)) + j && next == pos + 2 * k && k <= PlaneRead(data, plane)
          invariant !PlanePanics(data, conf, k)
          invariant forall c, r :: InGrid(c, r) ==> cells[c, r] == PlaneApply(plane, old(cells[c, r]), c, r, data, conf, k)
        {
          LexBelow(i, j, dunHeight, 0, dunWidth);
          label step:
          stop := ReadValue(plane, data, conf, i, j, k, col, row, next);
          if stop.Some? {
            return;
          }
          forall c, r | InGrid(c, r)
            ensures cells[c, r] == PlaneApply(plane, old(cells[c, r]), c, r, data, conf, k + 1)
          {
            PlaneStep(plane, old(cells[c, r]), old@step(cells[c, r]), cells[c, r], c, r, data, conf, i, j, k);
          }
          next := next + 2;
          k := k + 1;
          col := col + 1;
          j := j + 1;
        }
        row := row + 1;
        i := i + 1;
      }
      assert k == PlaneLen(data);
      return None, next;
    }

    /**
     One step of a plane loop: reads value (i, j) of the plane at offset pos
     and stores it in the attribute `plane` of cell (col, row). End of input
     at the first value of the plane is a success; any other short read is
     the reader's error; a cell off the map panics.
     */
    method ReadValue(plane: Plane, data: seq<byte>, conf: LevelConf, i: nat, j: nat, ghost k: nat, col: int, row: int, pos: nat)
      returns (stop: Option<Outcome>)
      requires Valid()
      requires |data| >= 4 && WordsAvailable(data) >= SquareCount(data) + Mul(plane.Index(), PlaneLen(data))
      requires i < 2 * QHeight(data) && j < 2 * QWidth(data)
      requires col == conf.colStart + j && row == conf.rowStart + i
      requires k == Mul(i, 2 * QWidth(data)) + j && k <= PlaneRead(data, plane) && !PlanePanics(data, conf, k)
      requires pos == 4 + 2 * (SquareCount(data) + Mul(plane.Index(), PlaneLen(data)) + k)
      modifies cells
      ensures stop.Some? ==> stop == PlaneStop(data, conf, plane)
      ensures stop.Some? && stop != Some(Panic) ==> unchanged(cells) && PlaneRead(data, plane) == k
      ensures stop.None? ==> k < PlaneRead(data, plane) && !PlanePanics(data, conf, k + 1)
      ensures stop.None? ==> forall c, r :: InGrid(c, r) ==>
        cells[c, r] == if c == col && r == row then plane.Set(old(cells[c, r]), PlaneValue(data, plane, k)) else old(cells[c, r])
    {
      LexBelow(i, j, 2 * QHeight(data), 0, 2 * QWidth(data));
      PlaneValueRead(data, plane, k);
      var x := ReadU16(data, pos);
      if x.Short? {
        LexBelow(0, 0, i, j, 2 * QWidth(data));
        PlaneShortStop(data, conf, plane, k);
        if x.err == EOF && i == 0 && j == 0 {
          return Some(Ok);
        }
        return Some(Failed(x.err));
      }
      DivModOf(i, j, 2 * QWidth(data));
      assert PlaneCell(data, conf, k) == (col, row);
      if !InGrid(col, row) {
        PlanePanicAt(data, conf, k, PlaneRead(data, plane));
        return Some(Panic);
      }
      cells[col, row] := plane.Set(cells[col, row], x.v);
      PlanePanicAt(data, conf, k, k + 1);
      return None;
    }
  }

  /**
   When a trailing plane the input reaches stops the parse without a panic,
   the stop is the parse's outcome: success exactly on a clean end.
   */
  lemma StopOutcome(data: seq<byte>, conf: LevelConf, plane: Plane)
    requires |data| >= 4
    requires WordsAvailable(data) >= SquareCount(data) + Mul(plane.Index(), PlaneLen(data))
    requires PlaneStop(data, conf, plane).Some? && PlaneStop(data, conf, plane) != Some(Panic)
    ensures PlaneStop(data, conf, plane) == Some(Ok) <==> CleanEnd(data)
    ensures PlaneStop(data, conf, plane) != Some(Ok) ==> PlaneStop(data, conf, plane) == Some(Failed(ShortReadError(data)))
  {
    var n := PlaneLen(data);
    var t := WordsAvailable(data) - SquareCount(data) - Mul(plane.Index(), n);
    assert 0 <= t < n;
    DivModOf(plane.Index(), t, n);
    MulMono(plane.Index() + 1, 4, n);
    MulIsProduct(4, n);
    assert Mul(plane.Index() + 1, n) == Mul(plane.Index(), n) + n;
  }


  /** A short read of the k-th square value: the input holds k of them and none of those panicked. */
  lemma SquaresShort(data: seq<byte>, conf: LevelConf, k: nat)
    requires |data| >= 4 && k <= SquaresRead(data) && k < SquareCount(data)
    requires ReadU16(data, 4 + 2 * k).Short?
    requires forall n: nat :: n < k ==> SquareFits(data, conf, n)
    ensures !SquaresPanic(data, conf) && WordsAvailable(data) < SquareCount(data)
    ensures ReadU16(data, 4 + 2 * k).err == ShortReadError(data)
  {
    assert SquaresRead(data) == k;
  }

  /** A trailing plane that stops the parse without a panic leaves every later plane unread. */
  lemma StoppedAt(data: seq<byte>, conf: LevelConf, plane: Plane)
    requires |data| >= 4
    requires WordsAvailable(data) >= SquareCount(data) + Mul(plane.Index(), PlaneLen(data))
    requires PlaneStop(data, conf, plane).Some? && PlaneStop(data, conf, plane) != Some(Panic)
    ensures forall q: Plane :: q.Index() > plane.Index() ==> PlaneRead(data, q) == 0
  {
    forall q: Plane | q.Index() > plane.Index() ensures PlaneRead(data, q) == 0 {
      LaterPlanesUnread(data, plane, q);
    }
  }

  /** When a trailing plane is cut short, the input holds nothing of the planes after it. */
  lemma LaterPlanesUnread(data: seq<byte>, plane: Plane, later: Plane)
    requires |data| >= 4
    requires WordsAvailable(data) - SquareCount(data) < Mul(plane.Index() + 1, PlaneLen(data))
    requires later.Index() > plane.Index()
    ensures PlaneRead(data, later) == 0
  {
    MulMono(plane.Index() + 1, later.Index(), PlaneLen(data));
  }

  // What a parse that does not panic leaves in the map, and how it ends.

  /**
   Square k = (i, j) of a parse whose square plane does not panic: a value 0
   leaves the pillar numbers of its 2x2 block as they were, and a value s
   puts quadrant (dx, dy) of square s - 1 at (colStart + 2j + dx, rowStart + 2i + dy).
   */
  lemma ParsedSquare(relDunPath: string, data: seq<byte>, conf: LevelConf, cell: Cell, i: nat, j: nat, k: nat, dx: int, dy: int)
    requires |data| >= 4 && Levels.GetLevelName(relDunPath).Success? && !SquaresPanic(data, conf)
    requires i < QHeight(data) && j < QWidth(data) && k == Mul(i, QWidth(data)) + j && k < SquaresRead(data)
    requires 0 <= dx <= 1 && 0 <= dy <= 1
    ensures Word(data, k) == 0 || Word(data, k) - 1 < |conf.squares|
    ensures
      var after := ParsedCell(cell, conf.colStart + 2 * j + dx, conf.rowStart + 2 * i + dy, relDunPath, data, conf);
      after.pillarNum == if Word(data, k) == 0 then cell.pillarNum else Some(Quadrant(conf.squares[Word(data, k) - 1], dx, dy))
  {
    SquareFitsWhenNoPanic(data, conf, k);
    var c, r := conf.colStart + 2 * j + dx, conf.rowStart + 2 * i + dy;
    ParsedPillar(cell, c, r, relDunPath, data, conf);
    SquarePillarAt(data, conf, cell.pillarNum, i, j, k, dx, dy);
  }

  /** Without a panic in the square plane, every square value read is 0 or names a square of the table. */
  lemma SquareFitsWhenNoPanic(data: seq<byte>, conf: LevelConf, k: nat)
    requires |data| >= 4 && !SquaresPanic(data, conf) && k < SquaresRead(data)
    ensures Word(data, k) == 0 || Word(data, k) - 1 < |conf.squares|
  {
    assert SquareFits(data, conf, k);
  }

  /** Once every square the input holds is placed, a cell of block (i, j) holds its quadrant of the block's square, if any. */
  lemma SquarePillarAt(data: seq<byte>, conf: LevelConf, p: Option<int>, i: nat, j: nat, k: nat, dx: int, dy: int)
    requires |data| >= 4 && i < QHeight(data) && j < QWidth(data)
    requires k == Mul(i, QWidth(data)) + j && k < SquaresRead(data)
    requires 0 <= dx <= 1 && 0 <= dy <= 1 && (Word(data, k) == 0 || Word(data, k) - 1 < |conf.squares|)
    ensures
      var s := Word(data, k);
      SquarePillar(data, conf, p, conf.colStart + 2 * j + dx, conf.rowStart + 2 * i + dy, SquaresRead(data)) ==
        if s == 0 then p else Some(Quadrant(conf.squares[s - 1], dx, dy))
  {
    assert (2 * j + dx) / 2 == j && (2 * j + dx) % 2 == dx;
    assert (2 * i + dy) / 2 == i && (2 * i + dy) % 2 == dy;
  }

  /** After a parse, a cell's pillar number is the one the square plane gave it. */
  lemma ParsedPillar(cell: Cell, c: int, r: int, relDunPath: string, data: seq<byte>, conf: LevelConf)
    requires |data| >= 4 && Levels.GetLevelName(relDunPath).Success?
    ensures ParsedCell(cell, c, r, relDunPath, data, conf).pillarNum == SquarePillar(data, conf, cell.pillarNum, c, r, SquaresRead(data))
  {
    var squared := cell.(pillarNum := SquarePillar(data, conf, cell.pillarNum, c, r, SquaresRead(data)));
    PlanesKeepPillar(squared, c, r, data, conf);
  }

  /** The trailing planes never change a cell's pillar number. */
  lemma PlanesKeepPillar(cell: Cell, c: int, r: int, data: seq<byte>, conf: LevelConf)
    requires |data| >= 4
    ensures PlanesApplied(cell, c, r, data, conf).pillarNum == cell.pillarNum
  {
  }

  /**
   Value k of a trailing plane, when the input holds it, ends up in the
   plane's attribute of cell (colStart + k mod dunWidth, rowStart + k div dunWidth).
   */
  lemma ParsedPlaneValue(relDunPath: string, data: seq<byte>, conf: LevelConf, cell: Cell, plane: Plane, k: nat)
    requires |data| >= 4 && Levels.GetLevelName(relDunPath).Success? && k < PlaneRead(data, plane)
    ensures
      var (c, r) := PlaneCell(data, conf, k);
      plane.Get(ParsedCell(cell, c, r, relDunPath, data, conf)) == Some(PlaneValue(data, plane, k))
  {
    var (c, r) := PlaneCell(data, conf, k);
    var v := PlaneValue(data, plane, k);
    var squared := cell.(pillarNum := SquarePillar(data, conf, cell.pillarNum, c, r, SquaresRead(data)));
    var c1 := PlaneApply(Unknown, squared, c, r, data, conf, PlaneRead(data, Unknown));
    var c2 := PlaneApply(DunMonsterId, c1, c, r, data, conf, PlaneRead(data, DunMonsterId));
    var c3 := PlaneApply(DunObjectId, c2, c, r, data, conf, PlaneRead(data, DunObjectId));
    var c4 := PlaneApply(Transparency, c3, c, r, data, conf, PlaneRead(data, Transparency));
    assert c4 == PlanesApplied(squared, c, r, data, conf);
    if plane == Unknown {
      PlaneApplyAt(plane, squared, data, conf, k);
      PlaneApplyKeeps(DunMonsterId, plane, c1, c, r, data, conf);
      PlaneApplyKeeps(DunObjectId, plane, c2, c, r, data, conf);
      PlaneApplyKeeps(Transparency, plane, c3, c, r, data, conf);
    } else if plane == DunMonsterId {
      PlaneApplyAt(plane, c1, data, conf, k);
      PlaneApplyKeeps(DunObjectId, plane, c2, c, r, data, conf);
      PlaneApplyKeeps(Transparency, plane, c3, c, r, data, conf);
    } else if plane == DunObjectId {
      PlaneApplyAt(plane, c2, data, conf, k);
      PlaneApplyKeeps(Transparency, plane, c3, c, r, data, conf);
    } else {
      PlaneApplyAt(plane, c3, data, conf, k);
    }
  }

  /** Storing a whole trailing plane puts value k into cell PlaneCell(k). */
  lemma PlaneApplyAt(plane: Plane, cell: Cell, data: seq<byte>, conf: LevelConf, k: nat)
    requires |data| >= 4 && k < PlaneRead(data, plane)
    ensures
      var (c, r) := PlaneCell(data, conf, k);
      PlaneApply(plane, cell, c, r, data, conf, PlaneRead(data, plane)) == plane.Set(cell, PlaneValue(data, plane, k))
  {
    IndexSplit(k, 2 * QHeight(data), 2 * QWidth(data));
  }

  /** Storing a trailing plane leaves the attributes of every other plane as they were. */
  lemma PlaneApplyKeeps(q: Plane, plane: Plane, cell: Cell, c: int, r: int, data: seq<byte>, conf: LevelConf)
    requires |data| >= 4 && q != plane
    ensures plane.Get(PlaneApply(q, cell, c, r, data, conf, PlaneRead(data, q))) == plane.Get(cell)
  {
  }

  /** A cell outside the region the file covers is left as it was. */
  lemma ParsedOutside(relDunPath: string, data: seq<byte>, conf: LevelConf, cell: Cell, c: int, r: int)
    requires |data| >= 4
    requires !(conf.colStart <= c < conf.colStart + 2 * QWidth(data) && conf.rowStart <= r < conf.rowStart + 2 * QHeight(data))
    ensures ParsedCell(cell, c, r, relDunPath, data, conf) == cell
  {
  }

  /**
   Input that ends exactly at the start of a trailing plane, after a square
   plane and earlier planes that did not panic: the parse succeeds on an even
   number of bytes and fails with UnexpectedEOF on one byte more (when the
   planes are not empty); that plane and the later ones are left unread.
   */
  lemma EndAtPlaneStart(relDunPath: string, data: seq<byte>, conf: LevelConf, plane: Plane)
    requires |data| >= 4 && Levels.GetLevelName(relDunPath).Success?
    requires PlaneLen(data) > 0 && WordsAvailable(data) == SquareCount(data) + Mul(plane.Index(), PlaneLen(data))
    requires !SquaresPanic(data, conf) && !PlanePanics(data, conf, PlaneRead(data, Unknown))
    ensures ParseOutcome(relDunPath, data, conf) == if (|data| - 4) % 2 == 0 then Ok else Failed(UnexpectedEOF)
    ensures forall q: Plane :: q.Index() >= plane.Index() ==> PlaneRead(data, q) == 0
  {
    var n := PlaneLen(data);
    MulIsProduct(plane.Index(), n);
    DivModOf(plane.Index(), 0, n);
    forall q: Plane | q.Index() >= plane.Index() ensures PlaneRead(data, q) == 0 {
      MulMono(plane.Index(), q.Index(), n);
    }
  }

  /**
   Input that ends inside a trailing plane, after t of its values with
   0 < t: the parse fails with the reader's error, EOF on an even number of
   bytes and UnexpectedEOF on an odd one.
   */
  lemma EndInsidePlane(relDunPath: string, data: seq<byte>, conf: LevelConf, plane: Plane, t: nat)
    requires |data| >= 4 && Levels.GetLevelName(relDunPath).Success?
    requires 0 < t < PlaneLen(data) && WordsAvailable(data) == SquareCount(data) + Mul(plane.Index(), PlaneLen(data)) + t
    requires !SquaresPanic(data, conf) && !PlanePanics(data, conf, PlaneRead(data, Unknown))
    ensures PlaneRead(data, plane) == t
    ensures ParseOutcome(relDunPath, data, conf) == Failed(if (|data| - 4) % 2 == 0 then EOF else UnexpectedEOF)
  {
    var n := PlaneLen(data);
    MulIsProduct(plane.Index(), n);
    DivModOf(plane.Index(), t, n);
  }

  /** Input that holds all four trailing planes: the parse succeeds and any bytes after them are ignored. */
  lemma AllPlanesPresent(relDunPath: string, data: seq<byte>, conf: LevelConf)
    requires |data| >= 4 && Levels.GetLevelName(relDunPath).Success?
    requires WordsAvailable(data) >= SquareCount(data) + Mul(4, PlaneLen(data))
    requires !SquaresPanic(data, conf) && !PlanePanics(data, conf, PlaneLen(data))
    ensures ParseOutcome(relDunPath, data, conf) == Ok
    ensures forall q: Plane :: PlaneRead(data, q) == PlaneLen(data)
  {
    var n := PlaneLen(data);
    MulIsProduct(4, n);
    forall q: Plane ensures PlaneRead(data, q) == n {
      MulMono(q.Index() + 1, 4, n);
      MulIsProduct(q.Index() + 1, n);
      MulIsProduct(q.Index(), n);
    }
  }
}
