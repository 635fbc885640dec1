/**
 Mapping a pointer position to a grid cell. The pointer offset is taken
 relative to the canvas origin, in whole pixels, and every cell is a square
 of `px` pixels.
 */
module Coords {
  import opened Wrappers
  import opened Grids

  /** The pixel at offset (offX, offY) lies inside the square drawn for cell (y, x). */
  predicate Covers(px: int, offX: int, offY: int, y: int, x: int)
  {
    x * px <= offX < (x + 1) * px && y * px <= offY < (y + 1) * px
  }

  /**
   The cell under the pointer, or None when the pointer is outside the grid.
   Dafny's `/` with a positive divisor rounds toward negative infinity, as
   `Math.floor` of the quotient does.
   */
  function PosToCell(offX: int, offY: int, px: int, rows: nat, cols: nat): (r: Option<Cell>)
    requires px >= 1
    ensures r.Some? ==> 0 <= r.value.y < rows && 0 <= r.value.x < cols
    ensures r.Some? ==> Covers(px, offX, offY, r.value.y, r.value.x)
    ensures r.None? <==> forall y, x :: 0 <= y < rows && 0 <= x < cols ==> !Covers(px, offX, offY, y, x)
  {
    var x := offX / px;
    var y := offY / px;
    FloorDivBounds(offX, px);
    FloorDivBounds(offY, px);
    if x < 0 || y < 0 || y >= rows || x >= cols then
      NoCoveringCell(offX, offY, px, rows, cols);
      None
    else
      assert Covers(px, offX, offY, y, x);
      Some(Cell(y, x))
  }

  /** The floored quotient places `a` inside the `d`-wide interval it names. */
  lemma FloorDivBounds(a: int, d: int)
    requires d >= 1
    ensures (a / d) * d <= a < (a / d + 1) * d
  {
  }

  /** Only the floored quotient names an interval holding `a`. */
  lemma FloorDivUnique(a: int, d: int, q: int)
    requires d >= 1
    requires q * d <= a < (q + 1) * d
    ensures q == a / d
  {
    var q0 := a / d;
    FloorDivBounds(a, d);
    if q < q0 {
      MulMono(q + 1, q0, d);
    } else if q > q0 {
      MulMono(q0 + 1, q, d);
    }
  }

  lemma MulMono(a: int, b: int, d: int)
    requires a <= b && d >= 0
    ensures a * d <= b * d
  {
    assert b * d - a * d == (b - a) * d;
  }

  /** When the floored cell is outside the grid, no grid cell covers the pixel. */
  lemma NoCoveringCell(offX: int, offY: int, px: int, rows: nat, cols: nat)
    requires px >= 1
    requires var x, y := offX / px, offY / px; x < 0 || y < 0 || y >= rows || x >= cols
    ensures forall y, x :: 0 <= y < rows && 0 <= x < cols ==> !Covers(px, offX, offY, y, x)
  {
    forall y, x | 0 <= y < rows && 0 <= x < cols
      ensures !Covers(px, offX, offY, y, x)
    {
      if Covers(px, offX, offY, y, x) {
        FloorDivUnique(offX, px, x);
        FloorDivUnique(offY, px, y);
      }
    }
  }

  /** A pointer 25 pixels right of the origin on a 2 x 2 grid of 10-pixel cells misses the grid. */
  lemma PosToCellPastRightEdge()
    ensures PosToCell(25, 5, 10, 2, 2) == None
  {
  }

  /** Every pixel of a cell's square maps back to that cell. */
  lemma {:induction false} PosToCellOfCoveredPixel(offX: int, offY: int, px: int, rows: nat, cols: nat, y: int, x: int)
    requires px >= 1
    requires 0 <= y < rows && 0 <= x < cols
    requires Covers(px, offX, offY, y, x)
    ensures PosToCell(offX, offY, px, rows, cols) == Some(Cell(y, x))
  {
    FloorDivUnique(offX, px, x);
    FloorDivUnique(offY, px, y);
  }
}
