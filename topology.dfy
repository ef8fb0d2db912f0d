/** Toroidal grid geometry of the Game of Life board.

    Cells live in a row-major array: the cell in column x and row y has
    index x + y * width. Each cell has eight neighbours, wired in the fixed
    order NW, N, NE, W, E, SW, S, SE, and every coordinate wraps around at
    the edges of the board.
 */
module Topology {

  /** Number of neighbour entries each cell carries. */
  const NeighborCount: nat := 8

  /** Row-major index of the cell in column x, row y. */
  function CellAt(w: nat, h: nat, x: nat, y: nat): (i: nat)
    requires x < w && y < h
    ensures i < w * h
    ensures i % w == x && i / w == y
  {
    RowMajorBound(w, h, x, y);
    DivModUnique(x + y * w, w, y, x);
    x + y * w
  }

  /** Column of the cell with index i. */
  function Column(w: nat, i: nat): nat
    requires w > 0
  {
    i % w
  }

  /** Row of the cell with index i. */
  function Row(w: nat, i: nat): nat
    requires w > 0
  {
    i / w
  }

  /** Column one to the left, wrapping from 0 to the last column. */
  function Left(x: nat, w: nat): nat
    requires x < w
  {
    if x == 0 then w - 1 else x - 1
  }

  /** Column one to the right, wrapping from the last column to 0. */
  function Right(x: nat, w: nat): nat
    requires x < w
  {
    if x == w - 1 then 0 else x + 1
  }

  /** Column offset of neighbour k: NW, N, NE, W, E, SW, S, SE. */
  function Dx(k: nat): int
    requires k < NeighborCount
  {
    [-1, 0, 1, -1, 1, -1, 0, 1][k]
  }

  /** Row offset of neighbour k: NW, N, NE, W, E, SW, S, SE. */
  function Dy(k: nat): int
    requires k < NeighborCount
  {
    [-1, -1, -1, 0, 0, 1, 1, 1][k]
  }

  /** The eight neighbour indices of cell i, exactly as the board wires them:
      the row above (left, same, right), the same row (left, right), then the
      row below (left, same, right). Up and down reuse Left and Right on rows. */
  function Neighbors(w: nat, h: nat, i: nat): (r: seq<nat>)
    requires i < w * h
    ensures |r| == NeighborCount
    ensures forall k :: 0 <= k < |r| ==> r[k] < w * h
  {
    PositiveSides(w, h, i);
    var x, y := Column(w, i), Row(w, i);
    IndexCoordinates(w, h, i);
    [ CellAt(w, h, Left(x, w), Left(y, h)),
      CellAt(w, h, x, Left(y, h)),
      CellAt(w, h, Right(x, w), Left(y, h)),
      CellAt(w, h, Left(x, w), y),
      CellAt(w, h, Right(x, w), y),
      CellAt(w, h, Left(x, w), Right(y, h)),
      CellAt(w, h, x, Right(y, h)),
      CellAt(w, h, Right(x, w), Right(y, h)) ]
  }

  // ---------------------------------------------------------------------
  // Arithmetic helpers

  /** A board with a cell has positive sides. */
  lemma PositiveSides(w: nat, h: nat, i: nat)
    requires i < w * h
    ensures w > 0 && h > 0
  {
  }

  /** Quotient and remainder are determined by the Euclidean decomposition. */
  lemma DivModUnique(n: int, d: int, q: int, r: int)
    requires d > 0 && 0 <= r < d && n == q * d + r
    ensures n / d == q && n % d == r
  {
    var q0, r0 := n / d, n % d;
    assert n == q0 * d + r0;
    assert (q - q0) * d == r0 - r;
    if q > q0 {
      MulAtLeast(q - q0, d);
    } else if q < q0 {
      MulAtLeast(q0 - q, d);
    }
  }

  /** A positive multiple of d is at least d. */
  lemma MulAtLeast(a: int, d: int)
    requires a >= 1 && d > 0
    ensures a * d >= d
  {
  }

  /** x + y * w stays below w * h. */
  lemma RowMajorBound(w: nat, h: nat, x: nat, y: nat)
    requires x < w && y < h
    ensures x + y * w < w * h
  {
    assert y * w <= (h - 1) * w;
    assert (h - 1) * w == h * w - w;
  }

  /** The coordinates of an index are in range and give the index back. */
  lemma IndexCoordinates(w: nat, h: nat, i: nat)
    requires i < w * h
    ensures w > 0 && h > 0
    ensures i % w < w && i / w < h
    ensures i % w + (i / w) * w == i
  {
  }

  // ---------------------------------------------------------------------
  // Properties of the wiring

  /** Index and coordinates are inverse: the coordinates of a cell index
      give that index back, and the index of coordinates gives them back. */
  lemma CoordinatesRoundTrip(w: nat, h: nat, i: nat, x: nat, y: nat)
    requires i < w * h && x < w && y < h
    ensures Column(w, i) < w && Row(w, i) < h
    ensures CellAt(w, h, Column(w, i), Row(w, i)) == i
    ensures Column(w, CellAt(w, h, x, y)) == x && Row(w, CellAt(w, h, x, y)) == y
  {
  }

  /** Moving one column left or right is arithmetic modulo the width. */
  lemma WrapStep(x: nat, w: nat)
    requires x < w
    ensures Left(x, w) == (x - 1) % w
    ensures Right(x, w) == (x + 1) % w
    ensures x % w == x
  {
  }

  /** Wrapping one step by an offset in {-1, 0, 1}. */
  function Shift(x: nat, d: int, w: nat): nat
    requires x < w && -1 <= d <= 1
  {
    if d < 0 then Left(x, w) else if d > 0 then Right(x, w) else x
  }

  /** A one-step shift is addition modulo the side. */
  lemma ShiftIsMod(x: nat, d: int, w: nat)
    requires x < w && -1 <= d <= 1
    ensures Shift(x, d, w) == (x + d) % w
  {
  }

  /** Neighbour k of cell i is the cell reached by shifting its column by
      Dx(k) and its row by Dy(k), each wrapping around. */
  lemma NeighborAsShift(w: nat, h: nat, i: nat, k: nat)
    requires i < w * h && k < NeighborCount
    ensures w > 0 && h > 0 && Column(w, i) < w && Row(w, i) < h
    ensures Neighbors(w, h, i)[k]
            == CellAt(w, h, Shift(Column(w, i), Dx(k), w), Shift(Row(w, i), Dy(k), h))
  {
  }

  /** Neighbour k of the cell in column x, row y lies at column
      (x + Dx(k)) mod w and row (y + Dy(k)) mod h, with the mathematical
      (never negative) modulus. */
  lemma {:induction false} NeighborsWrap(w: nat, h: nat, i: nat, k: nat)
    requires i < w * h && k < NeighborCount
    ensures w > 0 && h > 0
    ensures Neighbors(w, h, i)[k]
            == ((Column(w, i) + Dx(k)) % w) + ((Row(w, i) + Dy(k)) % h) * w
  {
    NeighborAsShift(w, h, i, k);
    ShiftIsMod(Column(w, i), Dx(k), w);
    ShiftIsMod(Row(w, i), Dy(k), h);
  }

  /** Shifting back undoes a shift. */
  lemma ShiftBack(x: nat, d: int, w: nat)
    requires x < w && -1 <= d <= 1
    ensures Shift(Shift(x, d, w), -d, w) == x
  {
  }

  /** A shift stays in place exactly when the offset is zero or the side has length one. */
  lemma ShiftFixed(x: nat, d: int, w: nat)
    requires x < w && -1 <= d <= 1
    ensures Shift(x, d, w) == x <==> d == 0 || w == 1
  {
  }

  /** The wiring is symmetric: cell i is neighbour 7 - k of its own
      neighbour k (NW and SE, N and S, NE and SW, W and E pair up). */
  lemma {:induction false} NeighborsSymmetric(w: nat, h: nat, i: nat, k: nat)
    requires i < w * h && k < NeighborCount
    ensures Neighbors(w, h, Neighbors(w, h, i)[k])[NeighborCount - 1 - k] == i
  {
    var n := Neighbors(w, h, i)[k];
    var k' := NeighborCount - 1 - k;
    assert Dx(k') == -Dx(k) && Dy(k') == -Dy(k);
    NeighborAsShift(w, h, i, k);
    NeighborAsShift(w, h, n, k');
    var x, y := Column(w, i), Row(w, i);
    var x', y' := Shift(x, Dx(k), w), Shift(y, Dy(k), h);
    CoordinatesRoundTrip(w, h, i, x', y');
    ShiftBack(x, Dx(k), w);
    ShiftBack(y, Dy(k), h);
  }

  /** A cell is its own neighbour k exactly when every moving direction of
      k runs along a side of length one. So on a board at least two cells
      wide and high the eight entries never name the cell itself, while on a
      one-wide board W and E both name it. */
  lemma {:induction false} NeighborIsSelf(w: nat, h: nat, i: nat, k: nat)
    requires i < w * h && k < NeighborCount
    ensures Neighbors(w, h, i)[k] == i <==> (Dx(k) == 0 || w == 1) && (Dy(k) == 0 || h == 1)
  {
    NeighborAsShift(w, h, i, k);
    var x, y := Column(w, i), Row(w, i);
    var x', y' := Shift(x, Dx(k), w), Shift(y, Dy(k), h);
    CoordinatesRoundTrip(w, h, i, x', y');
    ShiftFixed(x, Dx(k), w);
    ShiftFixed(y, Dy(k), h);
  }

  /** On a side of length at least three the three shifts land on three different places. */
  lemma ShiftInjective(x: nat, d1: int, d2: int, w: nat)
    requires 3 <= w && x < w && -1 <= d1 <= 1 && -1 <= d2 <= 1
    ensures Shift(x, d1, w) == Shift(x, d2, w) ==> d1 == d2
  {
  }

  /** On a board at least three cells wide and high the eight neighbour
      entries of a cell name eight different cells. */
  lemma {:induction false} NeighborsDistinct(w: nat, h: nat, i: nat, k1: nat, k2: nat)
    requires 3 <= w && 3 <= h && i < w * h
    requires k1 < NeighborCount && k2 < NeighborCount && k1 != k2
    ensures Neighbors(w, h, i)[k1] != Neighbors(w, h, i)[k2]
  {
    NeighborAsShift(w, h, i, k1);
    NeighborAsShift(w, h, i, k2);
    var x, y := Column(w, i), Row(w, i);
    var x1, y1 := Shift(x, Dx(k1), w), Shift(y, Dy(k1), h);
    var x2, y2 := Shift(x, Dx(k2), w), Shift(y, Dy(k2), h);
    if Neighbors(w, h, i)[k1] == Neighbors(w, h, i)[k2] {
      CoordinatesRoundTrip(w, h, i, x1, y1);
      CoordinatesRoundTrip(w, h, i, x2, y2);
      ShiftInjective(x, Dx(k1), Dx(k2), w);
      ShiftInjective(y, Dy(k1), Dy(k2), h);
      assert false;
    }
  }
}
