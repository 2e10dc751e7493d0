# blizzconv dungeon maps, modelled in Dafny

This project models the part of blizzconv that turns a Diablo dungeon
description into an isometric picture. It proves properties of that model.
The three parts of the system covered are:

- **DUN parsing** (`configs/dun/dun.go`). A DUN file is a little-endian
  stream of uint16 values:
  - a header `(dunQWidth, dunQHeight)`;
  - a square plane, each value a TIL square number plus one, expanded into
    the pillar numbers of a 2x2 block of the fixed 112x112 dungeon map;
  - up to four optional dense planes (`unknown`, `dunMonsterID`,
    `dunObjectID`, `transparency`), one value per cell, row-major.

  The input may end exactly where a trailing plane starts. `GetLevelName`
  maps the file's directory to one of the five level codes.
- **The fixed-size variant** (`configs/dunmini/dunmini.go`).
  - `Parse` expands a caller-sized byte buffer of square values
    column-major.
  - `ParsePillars` stores pillar numbers plus one from a 112x112 buffer.
- **Isometric compositing** (`configs/dunmini/image.go`).
  - `GetPillarRect` projects a map cell onto the canvas.
  - `getArchID` says which pillars get an arch overlay.
  - `Image` sizes the canvas and draws each cell's pillar, then its arch
    overlay, row by row. Its result is the ordered list of draws
    `(rectangle, source)` and the canvas bounds, not pixels.

Modules:

| file | module | contents |
|---|---|---|
| `cells.dfy` | `Cells` | the map constants, the cell record (every attribute an `Option`, so absent differs from 0), TIL squares, the 2x2 block placement, row-major index arithmetic |
| `levels.dfy` | `Levels` | `path.Split` and `GetLevelName`; the switch is the same in both packages and is modelled once |
| `dun.dfy` | `Dun` | class `Dungeon` over an `array2<Cell>`; `New` and `Parse` with their loops; a pointwise specification of the parsed map (`ParsedCell`) and of the outcome (`ParseOutcome`) |
| `dunmini.dfy` | `DunMini` | class `Dungeon`: `New`, `Parse`, `ParsePillars` and the `Image` loops |
| `image.dfy` | `Isometric` | `GetPillarRect`, `getArchID` and its constants, the canvas size, and the draw sequence as functions over the map |

Modelling decisions:

- **Runtime panics.** A Go runtime panic is an explicit `Panic` outcome:
  - an index out of range into the square table, the map or the pillar
    table;
  - an empty pillar table;
  - a short square buffer.

  The map after a panic is left unspecified, since the program dies.
- **Bytes and reads.** The DUN file is a sequence of bytes, and the reader
  is a byte offset into it. Reading a uint16 with no byte left is `EOF`;
  with one byte left it is `UnexpectedEOF`. The `[2]uint16` header read is
  `EOF` on an empty file and `UnexpectedEOF` on 1 to 3 bytes.
- **Arithmetic.** `mapWidth/2` is Go's truncating division (`GoDiv`).
  `image.Rect` swaps corners as Go does (`Rect`). This applies to every
  pillar rectangle and to the canvas bounds `Rect(0, 0, mapWidth, mapHeight)`,
  so a negative `mapHeight` (an empty grid with `pillarHeight` below
  `BlockHeight`) gives the swapped bounds, as in Go. `GetPillarRect` is
  still given the raw `mapWidth`. Products of two variables
  are written through the recursive `Mul`/`Times`, with lemmas connecting
  them to `*`.
- **Square plane layout.** The comment at the top of `dun.go` draws the
  trailing planes as `[dunWidth][dunHeight]`. The code reads them with the
  row loop outside (`[dunHeight][dunWidth]`, row-major). The model follows
  the code.
- **`dunmini.New`.** Its doc comment says pillar numbers start at -1. The
  code only allocates empty attribute maps. The model follows the code:
  every attribute starts absent.

## Model

| member | source | states |
|---|---|---|
| Levels.Split | configs/dun/dun.go:342 | `path.Split`: directory plus file is the path, the file part holds no '/', and the directory part is empty or ends in '/' |
| Levels.LastSlash | configs/dun/dun.go:342 | the index of the last '/' of the path, or -1; no '/' follows it |
| Levels.SplitDirFile | configs/dun/dun.go:342 | a directory ending in '/' followed by a file name without '/' splits back into exactly that directory and file |
| Levels.GetLevelName | configs/dun/dun.go:337-358 | success exactly when the directory is `levels/<n>data/` for one of l1, l2, l3, l4, town, and then the result is that n; any other directory is an error that names it |
| Levels.LevelNameOfDir | configs/dunmini/dunmini.go:247-268 | each of the five level codes is the result for every file of its own directory (the dunmini copy of the switch) |
| Levels.LevelNameExamples | configs/dun/dun.go:343-356 | `levels/l2data/foo.dun` gives `l2`; `levels/unknown/foo.dun` is an error naming `levels/unknown/` |
| Dun.Dungeon.New | configs/dun/dun.go:167-175 | a 112x112 map in which every cell has no attribute |
| Dun.Dungeon.Parse | configs/dun/dun.go:192-334 | the outcome is `ParseOutcome`, checked in the code's order: header shorter than 4 bytes (EOF when empty, else UnexpectedEOF), unknown level directory, square panic, short square plane, trailing planes; when there is no panic, every cell is `ParsedCell` of its old value, also when an error is returned |
| Dun.Dungeon.ReadSquares | configs/dun/dun.go:227-247 | the square loops: panic when some square read names no square of the table or a block off the map; otherwise the reader's error when the plane is short, else complete; the pillar number of every cell is `SquarePillar` of the squares read |
| Dun.Dungeon.ReadSquare | configs/dun/dun.go:230-245 | one square step: a short read ends with the reader's error and changes nothing; a bad value panics; otherwise block (colStart+2j, rowStart+2i) gets the square's quadrants (`PlaceAt`) |
| Dun.Dungeon.PlaceSquare | configs/dun/dun.go:238-243 | top, right, left and bottom go to (col,row), (col+1,row), (col,row+1), (col+1,row+1); every other attribute and every other cell is unchanged |
| Dun.Dungeon.ReadPlanes | configs/dun/dun.go:249-333 | the four trailing planes in file order; the outcome is `PlanesOutcome` (panic when a value goes off the map, success on a clean end, else the reader's error); every cell is `PlanesApplied` of its old value |
| Dun.Dungeon.ReadPlane | configs/dun/dun.go:252-270 | one trailing plane: its stop is `PlaneStop`; when complete, the reader has advanced by the whole plane; when there is no panic, every cell is `PlaneApply` of the values the input holds |
| Dun.Dungeon.ReadValue | configs/dun/dun.go:256-268 | one plane step: EOF at value (0,0) is success; any other short read is the reader's error and changes nothing; a cell off the map panics; otherwise only cell (colStart+j, rowStart+i) changes, in this plane's attribute |
| Dun.Plane.Set | configs/dun/dun.go:266 | storing a plane value sets that plane's attribute and keeps the pillar number and the other planes' attributes |
| Dun.PlaneRead | configs/dun/dun.go:254-270 | the number of values of a plane the input holds is at most the plane's length |
| Dun.SquarePillarNext | configs/dun/dun.go:237-243 | placing square k = (i, j) after the first k squares gives the pillar numbers of the first k+1, for every cell |
| Dun.PlaneApplyStep | configs/dun/dun.go:266-267 | storing value k = (i, j) after the first k values gives the first k+1: only cell (colStart+j, rowStart+i) changes |
| Dun.PlaneValueRead | configs/dun/dun.go:258-266 | the read at the offset of value k of a plane gives `PlaneValue` k, or is short exactly when the input ends there, with EOF exactly on an even remainder |
| Dun.PlaneShortStop | configs/dun/dun.go:258-264 | a short read at value k of a plane that did not panic stops the parse: success when k = 0 on an even remainder, else the reader's error |
| Dun.PlanePanicAt | configs/dun/dun.go:266 | a value whose cell is off the map makes the plane panic, and the first k+1 values panic exactly when the first k do or value k is off the map |
| Dun.PlanePanicsMono | configs/dun/dun.go:252-270 | a panic within the first a values of a plane is a panic within the first b >= a |
| Dun.PlaneDone | configs/dun/dun.go:270-274 | a plane read to its end without a panic is followed by the next one, which the input reaches and which cannot panic |
| Dun.StopOutcome | configs/dun/dun.go:258-264 | when a plane the input reaches stops without a panic, the stop is success exactly on `CleanEnd`, and otherwise the reader's error |
| Dun.SquaresShort | configs/dun/dun.go:232-235 | a short read at square k means the square plane is cut short with no panic before it, and the read's error is the parse's error |
| Dun.StoppedAt | configs/dun/dun.go:261-263 | a plane that stops the parse without a panic leaves every later plane unread |
| Dun.LaterPlanesUnread | configs/dun/dun.go:261-263 | when a plane is cut short, the input holds nothing of the planes after it |
| Dun.ParsedSquare | configs/dun/dun.go:227-247 | after a parse whose squares do not panic, square k = (i, j) is 0 or names a square of the table; a 0 value leaves the pillar numbers of its block as they were; a value s puts quadrant (dx, dy) of square s-1 at (colStart+2j+dx, rowStart+2i+dy) |
| Dun.SquareFitsWhenNoPanic | configs/dun/dun.go:237-239 | without a panic in the square plane, every square value read is 0 or names a square of the table |
| Dun.ParsedPillar | configs/dun/dun.go:227-331 | after a parse, a cell's pillar number is the one the square plane gave it |
| Dun.SquarePillarAt | configs/dun/dun.go:237-243 | once all squares read are placed, a cell of block (i, j) holds its quadrant of that block's square, or its old pillar number for a 0 value |
| Dun.PlanesKeepPillar | configs/dun/dun.go:249-331 | the trailing planes never change a pillar number |
| Dun.ParsedPlaneValue | configs/dun/dun.go:252-270 | value k of a plane that the input holds ends up in that plane's attribute of cell (colStart + k mod dunWidth, rowStart + k div dunWidth) |
| Dun.PlaneApplyAt | configs/dun/dun.go:266 | storing a whole plane puts value k into cell `PlaneCell` k |
| Dun.PlaneApplyKeeps | configs/dun/dun.go:266 | storing one plane leaves every other plane's attribute unchanged |
| Dun.ParsedOutside | configs/dun/dun.go:227-331 | a cell outside the dunWidth x dunHeight region from (colStart, rowStart) is left unchanged |
| Dun.EndAtPlaneStart | configs/dun/dun.go:258-264 | input that ends exactly where a trailing plane starts: success on an even byte count, UnexpectedEOF with one extra byte; that plane and the later ones stay unread |
| Dun.EndInsidePlane | configs/dun/dun.go:258-264 | input that ends after 0 < t values of a plane: the parse fails with EOF (even byte count) or UnexpectedEOF (odd) |
| Dun.AllPlanesPresent | configs/dun/dun.go:314-333 | input that holds all four planes parses successfully; every plane is read completely and any trailing bytes are ignored |
| DunMini.Dungeon.New | configs/dunmini/dunmini.go:159-167 | a 112x112 map in which every cell has no attribute |
| DunMini.Dungeon.Parse | configs/dunmini/dunmini.go:182-214 | panic exactly when some block (j, i) of the colCount x rowCount plane has its byte past the buffer, names no square, or reaches off the map; otherwise only pillar numbers change, each cell becoming `MiniPillar` over all blocks in column-major order |
| DunMini.Dungeon.PlaceBlock | configs/dunmini/dunmini.go:196-204 | one step: it succeeds exactly when `BlockFits`, and the block at (2j, 2i) gets the quadrants of the square of byte k |
| DunMini.Dungeon.PlaceSquare | configs/dunmini/dunmini.go:200-203 | the quadrant layout as in dun.go; every other attribute and cell is unchanged |
| DunMini.MiniPillarNext | configs/dunmini/dunmini.go:195-206 | one step of the row loop places block (j, i) and nothing else |
| DunMini.MiniPillarColumnDone | configs/dunmini/dunmini.go:193-209 | finishing a column of blocks is starting the next column |
| DunMini.MiniParsedByte | configs/dunmini/dunmini.go:191-209 | after a parse without a panic, byte k < colCount*rowCount is inside the buffer and goes to block (2(k div rowCount), 2(k mod rowCount)): 0 leaves the cell's pillar number, s gives quadrant (dx, dy) of square s-1 |
| DunMini.MiniZeroPlane | configs/dunmini/dunmini.go:197 | an all-zero buffer leaves every pillar number as it was |
| DunMini.Dungeon.ParsePillars | configs/dunmini/dunmini.go:229-244 | panic exactly when the buffer has fewer than 112*112 entries; otherwise each cell (col, row) becomes `PillarEntry` of entry col*112+row |
| DunMini.PillarEntry | configs/dunmini/dunmini.go:233-238 | a nonzero entry v sets the pillar number to v-1; a 0 entry leaves the cell as it was; no other attribute changes |
| DunMini.Dungeon.Image | configs/dunmini/image.go:18-55 | the result is `Render`: panic on an empty pillar table or any panicking cell, else the canvas bounds `image.Rect(0, 0, mapWidth, mapHeight)` and the draws in row-major order |
| DunMini.Dungeon.PaintRows | configs/dunmini/image.go:40-53 | the outer loop computes `PaintGrid`: the rows in ascending order, or None at the first panic |
| DunMini.Dungeon.DrawRow | configs/dunmini/image.go:41-52 | the inner loop computes `PaintRow`: the cells of one row left to right, or None at the first panic |
| DunMini.Dungeon.DrawCell | configs/dunmini/image.go:42-51 | the loop body computes `CellPaint`: a cell off the map or a pillar outside the table is None, otherwise the cell's `CellDraws` |
| Isometric.GoDiv | configs/dunmini/image.go:77 | Go's division by a positive divisor, truncating toward zero: the remainder has the sign of the dividend and is smaller than the divisor |
| Isometric.Rect | configs/dunmini/image.go:81 | `image.Rect` orders each pair of coordinates, keeping the same two values |
| Isometric.GetPillarRect | configs/dunmini/image.go:76-82 | the function has no ensures of its own; its contract is carried by PillarRectFormula (the closed form of minX and minY), PillarRectSize (PillarWidth by pillarHeight), PillarRectOrigin (cell (0, 0)) and PillarRectStep (one step in col or row) |
| Isometric.PillarRectFormula | configs/dunmini/image.go:76-82 | minX = mapWidth/2 - BlockWidth - row*BlockWidth + col*BlockWidth and minY = (row+col)*(BlockHeight/2) |
| Isometric.PillarRectSize | configs/dunmini/image.go:79-81 | the rectangle is PillarWidth wide and pillarHeight tall |
| Isometric.PillarRectOrigin | configs/dunmini/image.go:77-78 | cell (0, 0) is at the top, one block left of the middle of the canvas |
| Isometric.PillarRectStep | configs/dunmini/image.go:77-78 | col+1 moves minX by +BlockWidth, row+1 moves it by -BlockWidth, and either moves minY by +BlockHeight/2 |
| Isometric.TimesIsProduct | configs/dunmini/image.go:77-78 | the repeated-addition product used for row*BlockWidth and similar terms is the product |
| Isometric.ArchIdGroups | configs/dunmini/image.go:86-129 | pillars {11,70,210,320,340,417} give ArchSw=0, {10,248,324,330,343,420} give ArchSe=1, 254 gives ArchSwBroken2=3, 258 gives ArchSw2=4; every other pillar gives (0, false) |
| Isometric.GetArchId | configs/dunmini/image.go:86-98 | the function has no ensures of its own; its contract is carried by ArchIdGroups: the four groups of pillar ids and their arch ids, and (0, false) for every other pillar |
| Isometric.CanvasSize | configs/dunmini/image.go:30-36 | the function has no ensures of its own; its contract is carried by MaxCount (the larger count), CanvasOfSquare (only the larger count matters) and CellRectInCanvas (every cell's rectangle fits) |
| Isometric.MaxCount | configs/dunmini/image.go:30-33 | the larger of colCount and rowCount |
| Isometric.CanvasOfSquare | configs/dunmini/image.go:30-36 | the canvas depends only on the larger count: a colCount x rowCount grid gets the canvas of the square grid of its larger side |
| Isometric.CellRectInCanvas | configs/dunmini/image.go:35-44 | with a pillar at most two blocks wide and an even block height, the rectangle of every cell of the grid lies on the canvas |
| Isometric.CellDrawsShape | configs/dunmini/image.go:42-51 | a cell without a pillar draws nothing; otherwise it draws its pillar into its rectangle, then exactly when the pillar has an arch the arch overlay into the same rectangle |
| Isometric.RowOf | configs/dunmini/image.go:41 | one row of the visit order has colCount cells |
| Isometric.RowMajor | configs/dunmini/image.go:40-41 | the visit order has rowCount*colCount cells |
| Isometric.RowMajorAt | configs/dunmini/image.go:40-41 | cell (col, row) is visited at position row*cols + col |
| Isometric.RowOfAt | configs/dunmini/image.go:41 | within a row, the cell at position col is (col, row) |
| Isometric.RowMajorBounds | configs/dunmini/image.go:40-41 | every visited cell lies in [0, colCount) x [0, rowCount) |
| Isometric.RowMajorCells | configs/dunmini/image.go:40-41 | the visit order contains exactly the cells of the grid |
| Isometric.RowMajorOrdered | configs/dunmini/image.go:40-41 | the visit order is strictly increasing: rows ascending, then columns ascending within a row |
| Isometric.RowMajorOnce | configs/dunmini/image.go:40-41 | no cell is visited twice |
| Isometric.Join | configs/dunmini/image.go:46-49 | draws are concatenated in order, and a panic on either side is a panic |
| Isometric.JoinAssoc | configs/dunmini/image.go:40-53 | joining is associative |
| Isometric.PaintStep | configs/dunmini/image.go:40-53 | visiting one more cell appends that cell's outcome |
| Isometric.PaintConcat | configs/dunmini/image.go:40-53 | painting xs then ys gives the draws of xs followed by those of ys, and panics when either does |
| Isometric.PaintPanics | configs/dunmini/image.go:42-45 | a run panics exactly when one of its cells panics |
| Isometric.PaintNothing | configs/dunmini/image.go:43 | a run whose cells all draw nothing draws nothing |
| Isometric.PaintAt | configs/dunmini/image.go:40-53 | in a run without a panic, the draws of the i-th visited cell form one block, between the draws of the cells before and after it |
| Isometric.RenderPanics | configs/dunmini/image.go:29-45 | compositing panics exactly when the pillar table is empty or some cell of the grid is off the map or has a pillar outside the table |
| Isometric.PaintRowVisits | configs/dunmini/image.go:41-52 | painting a row cell by cell is painting the row's visit order |
| Isometric.PaintRowPanicsEarly | configs/dunmini/image.go:41-52 | a panic among the first cells of a row is a panic of the row |
| Isometric.PaintGridRowMajor | configs/dunmini/image.go:40-53 | painting row after row is painting the cells in row-major visit order |
| Isometric.PaintGridPanicsEarly | configs/dunmini/image.go:40-53 | a panic within the first rows is a panic of the whole grid |
| Isometric.PaintRowMajorStep | configs/dunmini/image.go:40-53 | the first r rows are the first r-1 rows followed by row r-1 |
| Isometric.EmptyCellDrawsNothing | configs/dunmini/image.go:42-43 | in a run without a panic, a cell without a pillar draws nothing |
| Isometric.PaintSingle | configs/dunmini/image.go:40-53 | a run without a panic in which only one cell draws draws exactly that cell's draws |
| Isometric.OthersDrawNothing | configs/dunmini/image.go:40-53 | with a single pillar on the map, every other visited cell draws nothing |
| Isometric.SinglePillarRun | configs/dunmini/image.go:40-53 | with a single pillar on the map, the run draws that cell's draws |
| Isometric.SinglePillar | configs/dunmini/image.go:40-50 | a grid with a single pillar composites to that pillar's draw into its rectangle, followed by its arch overlay exactly when the pillar has one |

## Left out

- Opening the file, `mpq.GetPath` and `mpq.GetRelPath` are not modelled. The DUN file is given as its bytes and its archive-relative path, so their errors do not arise.
- `til.Parse`, `dunconf.GetColStart`/`GetRowStart` and `min.Parse` are not modelled. Their results (the square table and the start coordinates) are parameters, and their errors are not modelled. This includes the `til.Parse("l1.til")` error in the dunmini `Parse`.
- `min.BlockWidth`, `min.BlockHeight` and `min.PillarWidth` are not defined in the modelled files. They are positive parameters (`Metrics`).
- Pixels are not modelled: `draw.Draw` with `draw.Over`, `image.NewRGBA` and `pillars[i].Image(levelFrames)`. A draw is recorded as its rectangle and source. A pillar keeps only its height.
- The lazily loaded global `arches` overlay sheet is not modelled: `cel.GetConf`, `cel.DecodeAll`, `log.Fatalln`. An arch source is its arch id, and indexing that sheet is assumed in range.
- The `fmt.Printf` trace in `ParsePillars` is output only and is not modelled.
- The static `objects` name tables have no behaviour and are not modelled.
- `configs/cmd/dunsquares_dump` is not part of this model.
- The map after a Go panic is left unspecified, because the process stops. A panic inside a 2x2 block write is modelled as happening before the block's first write.
- Dun.PlaneRead: its contract states only the bound. The meaning of the count is proved by the lemmas that use it (PlaneValueRead, EndAtPlaneStart, EndInsidePlane, AllPlanesPresent).
- The canvas is kept as written: it is over-allocated for grids that are not square (see CanvasOfSquare). The source itself marks the placement as sometimes off.
