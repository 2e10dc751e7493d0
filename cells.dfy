/**
 The vocabulary shared by both DUN parsers and the compositor: the fixed
 112x112 dungeon map, the per-cell attribute record, the squares of the TIL
 table, and a few facts about row-major indices.
 */
module Cells {

  /** The maximum number of cols and rows in a dungeon map. */
  const ColMax: int := 112
  const RowMax: int := 112

  /** An unsigned 8-bit value, as read from a file. */
  type byte = b: int | 0 <= b < 0x100

  /** An unsigned 32-bit value. */
  type u32 = x: int | 0 <= x < 0x1_0000_0000

  datatype Option<+T> = None | Some(value: T)

  /** A square of the TIL table: the pillar numbers of its four quadrants. */
  datatype Square = Square(pillarNumTop: int, pillarNumRight: int, pillarNumLeft: int, pillarNumBottom: int)

  /**
   The information about one cell of the dungeon map. Each attribute is
   either absent (never written) or holds the value last written to it; an
   absent attribute is distinct from a zero one.
   */
  datatype Cell = Cell(
    pillarNum: Option<int>,
    unknown: Option<int>,
    dunMonsterId: Option<int>,
    dunObjectId: Option<int>,
    transparency: Option<int>)

  /** A cell without attributes. */
  const EmptyCell := Cell(None, None, None, None, None)

  /** (col, row) indexes the 112x112 map. */
  predicate InGrid(col: int, row: int) {
    0 <= col < ColMax && 0 <= row < RowMax
  }

  /** The whole 2x2 block with top cell (col, row) lies on the map. */
  predicate BlockInGrid(col: int, row: int) {
    InGrid(col, row) && InGrid(col + 1, row + 1)
  }

  /**
   The pillar number a square places at offset (dx, dy) of its 2x2 block:
   top at (0, 0), right at (1, 0), left at (0, 1), bottom at (1, 1).
   */
  function Quadrant(sq: Square, dx: int, dy: int): int
    requires 0 <= dx < 2 && 0 <= dy < 2
  {
    if dy == 0 then
      if dx == 0 then sq.pillarNumTop else sq.pillarNumRight
    else
      if dx == 0 then sq.pillarNumLeft else sq.pillarNumBottom
  }

  /**
   The pillar number of cell (c, r) after square value s (a square number
   plus one) is placed at the block with top cell (col, row), p being its
   pillar number before: a value naming a square of the table gives the four
   cells of the block that square's quadrants, and leaves every other cell
   as it was; a zero value changes nothing.
   */
  function PlaceAt(p: Option<int>, c: int, r: int, col: int, row: int, s: nat, squares: seq<Square>): Option<int> {
    if s != 0 && s - 1 < |squares| && col <= c <= col + 1 && row <= r <= row + 1 then
      Some(Quadrant(squares[s - 1], c - col, r - row))
    else p
  }

  /** The number of times `for i := 0; i < n; i++` runs its body. */
  function Count(n: int): nat {
    if n > 0 then n else 0
  }

  /**
   The product a * b of two naturals. It is written as repeated addition so
   that the verifier treats a product of two variables as a plain term; the
   lemmas below give the facts about it that the proofs use.
   */
  function Mul(a: nat, b: nat): (r: nat)
    ensures r == 0 <==> a == 0 || b == 0
  {
    if a == 0 then 0 else Mul(a - 1, b) + b
  }

  lemma {:induction false} MulIsProduct(a: nat, b: nat)
    ensures Mul(a, b) == a * b
  {
    if a > 0 {
      MulIsProduct(a - 1, b);
    }
  }

  /** Multiplication by a natural factor is monotone. */
  lemma MulMono(x: nat, y: nat, w: nat)
    requires x <= y
    ensures Mul(x, w) <= Mul(y, w)
  {
    MulIsProduct(x, w);
    MulIsProduct(y, w);
    assert y * w - x * w == (y - x) * w;
  }

  /** (q, x) is recovered from the row-major index Mul(q, d) + x by / and %. */
  lemma DivModOf(q: nat, x: int, d: nat)
    requires 0 <= x < d
    ensures (Mul(q, d) + x) / d == q && (Mul(q, d) + x) % d == x
  {
    var n := Mul(q, d) + x;
    var q', x' := n / d, n % d;
    assert q' >= 0;
    assert n == Mul(q', d) + x' by {
      MulIsProduct(q', d);
    }
    if q' < q {
      MulMono(q' + 1, q, d);
      assert false;
    } else if q < q' {
      MulMono(q + 1, q', d);
      assert false;
    }
  }

  /** An index below Mul(a, b) splits into a whole number of rows of width b, fewer than a, and a rest below b. */
  lemma IndexSplit(k: nat, a: nat, b: nat)
    requires k < Mul(a, b)
    ensures b > 0 && k / b < a && k % b < b && k == Mul(k / b, b) + k % b
  {
    MulIsProduct(k / b, b);
    if k / b >= a {
      MulMono(a, k / b, b);
    }
  }

  /**
   Comparing the row-major indices of (a, b) and (i, j) in rows of width w
   is comparing the pairs lexicographically.
   */
  lemma LexBelow(a: nat, b: int, i: nat, j: int, w: nat)
    requires 0 <= b < w && 0 <= j <= w
    ensures Mul(a, w) + b < Mul(i, w) + j <==> (a < i || (a == i && b < j))
  {
    if a < i {
      MulMono(a + 1, i, w);
    } else if i < a {
      MulMono(i + 1, a, w);
    }
  }
}
