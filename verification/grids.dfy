/**
 The in-memory bitmap of the editor: a rectangular grid of palette indices,
 with the operations that build and edit it (create, clear, paint one cell,
 resize with top-left alignment).
 */
module Grids {

  /** Rows of palette indices; `g[y][x]` is the cell in row `y`, column `x`. */
  type Grid = seq<seq<nat>>

  /** A cell position as a (row, column) pair; may lie outside the grid. */
  datatype Cell = Cell(y: int, x: int)

  /** `g` has exactly `rows` rows, each of length `cols`. */
  predicate HasShape(g: Grid, rows: nat, cols: nat)
  {
    |g| == rows && forall y :: 0 <= y < |g| ==> |g[y]| == cols
  }

  /** A bitmap as the editor keeps it: at least one row and one column, all rows equally long. */
  predicate IsBitmap(g: Grid)
  {
    |g| >= 1 && |g[0]| >= 1 && HasShape(g, |g|, |g[0]|)
  }

  function Rows(g: Grid): nat
  {
    |g|
  }

  function Cols(g: Grid): nat
    requires |g| > 0
  {
    |g[0]|
  }

  /** Two grids have the same dimensions, row by row. */
  predicate SameShape(a: Grid, b: Grid)
  {
    |a| == |b| && forall y :: 0 <= y < |a| ==> |a[y]| == |b[y]|
  }

  predicate InBounds(g: Grid, c: Cell)
  {
    0 <= c.y < |g| && 0 <= c.x < |g[c.y]|
  }

  function Max(a: int, b: int): int
  {
    if a < b then b else a
  }

  function Min(a: int, b: int): int
  {
    if a < b then a else b
  }

  /** A `rows` x `cols` grid of zeros (the "empty" palette index). */
  function CreateEmpty(rows: nat, cols: nat): (g: Grid)
    ensures HasShape(g, rows, cols)
    ensures forall y, x :: 0 <= y < rows && 0 <= x < cols ==> g[y][x] == 0
  {
    seq(rows, _ => seq(cols, _ => 0))
  }

  /** The clear button: a fresh empty grid with the current dimensions. */
  function Clear(g: Grid): (r: Grid)
    requires IsBitmap(g)
    ensures IsBitmap(r) && SameShape(r, g)
    ensures forall y, x :: 0 <= y < |r| && 0 <= x < |r[y]| ==> r[y][x] == 0
  {
    CreateEmpty(Rows(g), Cols(g))
  }

  /**
   Paint one cell. When the cell already holds `val` the grid is returned as
   is (the source exits early and skips the redraw).
   */
  function PaintAt(g: Grid, r: int, c: int, val: nat): (res: Grid)
    requires InBounds(g, Cell(r, c))
    ensures g[r][c] == val ==> res == g
    ensures SameShape(res, g)
    ensures res[r][c] == val
    ensures forall y, x :: InBounds(g, Cell(y, x)) && (y != r || x != c) ==> res[y][x] == g[y][x]
  {
    if g[r][c] == val then g
    else
      var row: seq<nat> := g[r][c := val];
      g[r := row]
  }

  /** Painting the old value back undoes a paint. */
  lemma PaintAtUndo(g: Grid, r: int, c: int, val: nat)
    requires InBounds(g, Cell(r, c))
    ensures PaintAt(PaintAt(g, r, c, val), r, c, g[r][c]) == g
  {
    var h := PaintAt(g, r, c, val);
    var k := PaintAt(h, r, c, g[r][c]);
    assert forall y :: 0 <= y < |g| ==> k[y] == g[y];
  }

  /** Painting the same cell with the same value twice is the same as once. */
  lemma PaintAtIdempotent(g: Grid, r: int, c: int, val: nat)
    requires InBounds(g, Cell(r, c))
    ensures PaintAt(PaintAt(g, r, c, val), r, c, val) == PaintAt(g, r, c, val)
  {
  }

  /** Painting keeps a bitmap a bitmap. */
  lemma PaintAtKeepsBitmap(g: Grid, r: int, c: int, val: nat)
    requires IsBitmap(g) && InBounds(g, Cell(r, c))
    ensures IsBitmap(PaintAt(g, r, c, val))
  {
  }

  /** The value a resized grid holds at (y, x): the old one inside the overlap, else 0. */
  function ResizedCell(g: Grid, y: int, x: int, rows: int, cols: int): nat
    requires IsBitmap(g)
  {
    if 0 <= y < Min(Rows(g), rows) && 0 <= x < Min(Cols(g), cols) then g[y][x] else 0
  }

  /**
   Reference definition of the resize handler: the requested dimensions are
   clamped up to 1 and the top-left overlap of the old grid is kept.
   */
  function Resized(g: Grid, rows: int, cols: int): (r: Grid)
    requires IsBitmap(g)
    ensures IsBitmap(r) && HasShape(r, Max(1, rows), Max(1, cols))
  {
    var R := Max(1, rows);
    var C := Max(1, cols);
    seq(R, y requires 0 <= y < R => seq(C, x => ResizedCell(g, y, x, R, C)))
  }

  /**
   The resize handler as written: start from an empty grid of the clamped size
   and copy the overlap cell by cell.
   */
  method Resize(g: Grid, rows: int, cols: int) returns (nb: Grid)
    requires IsBitmap(g)
    ensures IsBitmap(nb) && HasShape(nb, Max(1, rows), Max(1, cols))
    ensures forall y, x :: 0 <= y < Min(Rows(g), Max(1, rows)) && 0 <= x < Min(Cols(g), Max(1, cols)) ==>
              nb[y][x] == g[y][x]
    ensures forall y, x :: 0 <= y < |nb| && 0 <= x < |nb[y]| && !(y < Rows(g) && x < Cols(g)) ==> nb[y][x] == 0
    ensures nb == Resized(g, rows, cols)
  {
    var r := Max(1, rows);
    var c := Max(1, cols);
    nb := CreateEmpty(r, c);
    var ymax := Min(Rows(g), r);
    var xmax := Min(Cols(g), c);
    var y := 0;
    while y < ymax
      invariant 0 <= y <= ymax
      invariant HasShape(nb, r, c)
      invariant forall i, j :: 0 <= i < r && 0 <= j < c ==>
        nb[i][j] == (if i < y && j < xmax then g[i][j] else 0)
    {
      var x := 0;
      while x < xmax
        invariant 0 <= x <= xmax
        invariant HasShape(nb, r, c)
        invariant forall i, j :: 0 <= i < r && 0 <= j < c ==>
          nb[i][j] == (if (i < y && j < xmax) || (i == y && j < x) then g[i][j] else 0)
      {
        var row: seq<nat> := nb[y][x := g[y][x]];
        nb := nb[y := row];
        x := x + 1;
      }
      y := y + 1;
    }
    assert forall i :: 0 <= i < r ==> nb[i] == Resized(g, rows, cols)[i];
  }

  /** Resizing to the current dimensions changes nothing. */
  lemma ResizedSameSize(g: Grid)
    requires IsBitmap(g)
    ensures Resized(g, Rows(g), Cols(g)) == g
  {
    var r := Resized(g, Rows(g), Cols(g));
    assert forall y :: 0 <= y < |g| ==> r[y] == g[y];
  }

  /** Growing and then shrinking back to the old dimensions is lossless. */
  lemma ResizedGrowShrink(g: Grid, rows: int, cols: int)
    requires IsBitmap(g)
    requires rows >= Rows(g) && cols >= Cols(g)
    ensures Resized(Resized(g, rows, cols), Rows(g), Cols(g)) == g
  {
    var r := Resized(Resized(g, rows, cols), Rows(g), Cols(g));
    assert forall y :: 0 <= y < |g| ==> r[y] == g[y];
  }

  /**
   Shrinking and growing back keeps every cell inside the smaller size and
   zeroes the cells that were cut off.
   */
  lemma ResizedShrinkGrow(g: Grid, rows: int, cols: int)
    requires IsBitmap(g)
    ensures var r := Resized(Resized(g, rows, cols), Rows(g), Cols(g));
      && HasShape(r, Rows(g), Cols(g))
      && forall y, x :: 0 <= y < Rows(g) && 0 <= x < Cols(g) ==>
           r[y][x] == (if y < Max(1, rows) && x < Max(1, cols) then g[y][x] else 0)
  {
  }

  /** Resizing an empty grid gives an empty grid of the clamped size. */
  lemma ResizedEmpty(rows: nat, cols: nat, newRows: int, newCols: int)
    requires rows >= 1 && cols >= 1
    ensures Resized(CreateEmpty(rows, cols), newRows, newCols) == CreateEmpty(Max(1, newRows), Max(1, newCols))
  {
    var r := Resized(CreateEmpty(rows, cols), newRows, newCols);
    var e := CreateEmpty(Max(1, newRows), Max(1, newCols));
    assert forall y :: 0 <= y < |r| ==> r[y] == e[y];
  }

  /** Clearing after a paint is the same as clearing: only the dimensions survive. */
  lemma ClearForgetsPaint(g: Grid, r: int, c: int, val: nat)
    requires IsBitmap(g) && InBounds(g, Cell(r, c))
    ensures Clear(PaintAt(g, r, c, val)) == Clear(g)
  {
  }
}
