/**
 Flood fill: recolour the 4-connected region of equal-valued cells around a
 seed, driven by an explicit stack as in the editor's fill tool.
 */
module Fill {
  import opened Grids

  /** The value at an in-bounds cell. */
  function At(g: Grid, c: Cell): nat
    requires InBounds(g, c)
  {
    g[c.y][c.x]
  }

  /** The four orthogonal neighbours, in the order the fill pushes them: down, up, right, left. */
  function Neighbours(c: Cell): (ns: seq<Cell>)
    ensures |ns| == 4
  {
    [Cell(c.y + 1, c.x), Cell(c.y - 1, c.x), Cell(c.y, c.x + 1), Cell(c.y, c.x - 1)]
  }

  /** A walk through in-bounds cells holding `v`, each step to an orthogonal neighbour. */
  ghost predicate IsPath(g: Grid, v: nat, p: seq<Cell>)
  {
    && |p| > 0
    && (forall i :: 0 <= i < |p| ==> InBounds(g, p[i]) && At(g, p[i]) == v)
    && (forall i :: 0 <= i < |p| - 1 ==> p[i + 1] in Neighbours(p[i]))
  }

  /** `t` can be reached from `s` by orthogonal steps through cells holding `v`. */
  ghost predicate Connected(g: Grid, v: nat, s: Cell, t: Cell)
  {
    exists p :: IsPath(g, v, p) && p[0] == s && p[|p| - 1] == t
  }

  /** `t` lies in the fill region of seed `s`: connected to it through cells of the seed's value. */
  ghost predicate Reachable(g: Grid, s: Cell, t: Cell)
    requires InBounds(g, s)
  {
    Connected(g, At(g, s), s, t)
  }

  /** Reference definition of a fill: region cells take `newVal`, all others keep their value. */
  ghost function FillSpec(g: Grid, s: Cell, newVal: nat): (r: Grid)
    requires InBounds(g, s)
    ensures SameShape(r, g)
  {
    seq(|g|, y requires 0 <= y < |g| =>
      seq(|g[y]|, x requires 0 <= x < |g[y]| =>
        if Reachable(g, s, Cell(y, x)) then newVal else g[y][x]))
  }

  /** A cell the fill has recoloured so far: its value differs from the original. */
  predicate Filled(g: Grid, b: Grid, c: Cell)
    requires SameShape(b, g)
  {
    InBounds(g, c) && b[c.y][c.x] != g[c.y][c.x]
  }

  /** A cell that still holds the old value and would be recoloured when popped. */
  predicate Open(b: Grid, v: nat, c: Cell)
  {
    InBounds(b, c) && b[c.y][c.x] == v
  }

  /** The cells of `b` that still hold `v`; shrinks with every recolouring. */
  ghost function OpenCells(b: Grid, v: nat): set<Cell>
  {
    set y, x | 0 <= y < |b| && 0 <= x < |b[y]| && b[y][x] == v :: Cell(y, x)
  }

  lemma OpenCellsShrink(b: Grid, v: nat, w: nat, c: Cell)
    requires Open(b, v, c) && v != w
    ensures var row: seq<nat> := b[c.y][c.x := w];
      OpenCells(b[c.y := row], v) < OpenCells(b, v)
  {
    var row: seq<nat> := b[c.y][c.x := w];
    var b' := b[c.y := row];
    assert c in OpenCells(b, v);
    assert c !in OpenCells(b', v);
    forall d | d in OpenCells(b', v)
      ensures d in OpenCells(b, v)
    {
    }
  }

  lemma ConnectedSelf(g: Grid, s: Cell)
    requires InBounds(g, s)
    ensures Connected(g, At(g, s), s, s)
  {
    assert IsPath(g, At(g, s), [s]);
  }

  /** A connected cell lies in the grid and holds the region's value. */
  lemma ConnectedEnd(g: Grid, v: nat, s: Cell, t: Cell)
    requires Connected(g, v, s, t)
    ensures InBounds(g, t) && At(g, t) == v
  {
    var p :| IsPath(g, v, p) && p[0] == s && p[|p| - 1] == t;
    assert InBounds(g, p[|p| - 1]);
  }

  /** One more step to a neighbour holding `v` stays connected. */
  lemma ConnectedStep(g: Grid, v: nat, s: Cell, c: Cell, n: Cell)
    requires Connected(g, v, s, c)
    requires n in Neighbours(c) && InBounds(g, n) && At(g, n) == v
    ensures Connected(g, v, s, n)
  {
    var p :| IsPath(g, v, p) && p[0] == s && p[|p| - 1] == c;
    var q := p + [n];
    assert q[|q| - 1] == n;
    assert IsPath(g, v, q);
  }

  /**
   A set of recoloured cells that contains the seed and is closed under
   stepping to neighbours holding `v` contains every cell connected to the seed.
   */
  lemma {:induction false} ClosedContainsPath(g: Grid, b: Grid, v: nat, p: seq<Cell>)
    requires SameShape(b, g)
    requires IsPath(g, v, p)
    requires Filled(g, b, p[0])
    requires forall c, n :: Filled(g, b, c) && n in Neighbours(c) && InBounds(g, n) && At(g, n) == v ==> Filled(g, b, n)
    ensures Filled(g, b, p[|p| - 1])
    decreases |p|
  {
    if |p| > 1 {
      var q := p[..|p| - 1];
      assert IsPath(g, v, q);
      ClosedContainsPath(g, b, v, q);
      assert p[|p| - 1] in Neighbours(p[|p| - 2]);
    }
  }

  lemma ClosedContainsConnected(g: Grid, b: Grid, v: nat, s: Cell, t: Cell)
    requires SameShape(b, g)
    requires Connected(g, v, s, t)
    requires Filled(g, b, s)
    requires forall c, n :: Filled(g, b, c) && n in Neighbours(c) && InBounds(g, n) && At(g, n) == v ==> Filled(g, b, n)
    ensures Filled(g, b, t)
  {
    var p :| IsPath(g, v, p) && p[0] == s && p[|p| - 1] == t;
    ClosedContainsPath(g, b, v, p);
  }

  /** Every recoloured cell held the old value, now holds the new one, and lies in the seed's region. */
  ghost predicate RecolouredInRegion(g: Grid, b: Grid, v: nat, w: nat, s: Cell)
    requires SameShape(b, g)
  {
    forall y, x :: 0 <= y < |g| && 0 <= x < |g[y]| && b[y][x] != g[y][x] ==>
      g[y][x] == v && b[y][x] == w && Connected(g, v, s, Cell(y, x))
  }

  /** Every pending position that holds the old value in the original grid lies in the seed's region. */
  ghost predicate StackInRegion(g: Grid, stack: seq<Cell>, v: nat, s: Cell)
  {
    forall i :: 0 <= i < |stack| && InBounds(g, stack[i]) && At(g, stack[i]) == v ==>
      Connected(g, v, s, stack[i])
  }

  /**
   Nothing is forgotten: an open neighbour of a recoloured cell, and the seed
   while it is open, is still on the stack.
   */
  ghost predicate FrontierOnStack(g: Grid, b: Grid, stack: seq<Cell>, v: nat, s: Cell)
    requires SameShape(b, g)
  {
    && (forall c, n :: Filled(g, b, c) && n in Neighbours(c) && Open(b, v, n) ==> n in stack)
    && (Open(b, v, s) ==> s in stack)
  }

  ghost predicate FillInvariant(g: Grid, b: Grid, stack: seq<Cell>, v: nat, w: nat, s: Cell)
  {
    && SameShape(b, g)
    && RecolouredInRegion(g, b, v, w, s)
    && StackInRegion(g, stack, v, s)
    && FrontierOnStack(g, b, stack, v, s)
  }

  lemma FillInvariantInit(g: Grid, v: nat, w: nat, s: Cell)
    requires InBounds(g, s) && At(g, s) == v
    ensures FillInvariant(g, g, [s], v, w, s)
  {
    ConnectedSelf(g, s);
  }

  /** Popping a position that is outside the grid or no longer open keeps the invariant. */
  lemma FillInvariantSkip(g: Grid, b: Grid, stack: seq<Cell>, v: nat, w: nat, s: Cell)
    requires FillInvariant(g, b, stack, v, w, s)
    requires |stack| > 0 && !Open(b, v, stack[|stack| - 1])
    ensures FillInvariant(g, b, stack[..|stack| - 1], v, w, s)
  {
    var rest := stack[..|stack| - 1];
    forall i | 0 <= i < |rest| && InBounds(g, rest[i]) && At(g, rest[i]) == v
      ensures Connected(g, v, s, rest[i])
    {
      assert rest[i] == stack[i];
    }
    assert StackInRegion(g, rest, v, s);
    forall c, n | Filled(g, b, c) && n in Neighbours(c) && Open(b, v, n)
      ensures n in rest
    {
      assert n in stack && n != stack[|stack| - 1];
      InInit(stack, n);
    }
    if Open(b, v, s) {
      InInit(stack, s);
    }
    assert FrontierOnStack(g, b, rest, v, s);
  }

  /** An element of a non-empty sequence other than its last lies in the sequence without its last. */
  lemma InInit<T>(xs: seq<T>, e: T)
    requires |xs| > 0 && e in xs && e != xs[|xs| - 1]
    ensures e in xs[..|xs| - 1]
  {
    var i :| 0 <= i < |xs| && xs[i] == e;
    assert xs[..|xs| - 1][i] == e;
  }

  /** Recolouring the popped open cell and pushing its neighbours keeps the invariant. */
  lemma FillInvariantRecolour(g: Grid, b: Grid, stack: seq<Cell>, v: nat, w: nat, s: Cell)
    requires v != w
    requires FillInvariant(g, b, stack, v, w, s)
    requires |stack| > 0 && Open(b, v, stack[|stack| - 1])
    ensures var c := stack[|stack| - 1];
      var row: seq<nat> := b[c.y][c.x := w];
      FillInvariant(g, b[c.y := row], stack[..|stack| - 1] + Neighbours(c), v, w, s)
  {
    var c := stack[|stack| - 1];
    var row: seq<nat> := b[c.y][c.x := w];
    var b' := b[c.y := row];
    assert b[c.y][c.x] == g[c.y][c.x];
    assert Connected(g, v, s, c);
    assert SameShape(b', g);
    assert RecolouredInRegion(g, b', v, w, s);
    RecolourKeepsStack(g, stack, v, s, c);
    RecolourKeepsFrontier(g, b, stack, v, w, s);
  }

  lemma RecolourKeepsStack(g: Grid, stack: seq<Cell>, v: nat, s: Cell, c: Cell)
    requires StackInRegion(g, stack, v, s)
    requires |stack| > 0 && c == stack[|stack| - 1] && Connected(g, v, s, c)
    ensures StackInRegion(g, stack[..|stack| - 1] + Neighbours(c), v, s)
  {
    var rest := stack[..|stack| - 1];
    var stack' := rest + Neighbours(c);
    forall i | 0 <= i < |stack'| && InBounds(g, stack'[i]) && At(g, stack'[i]) == v
      ensures Connected(g, v, s, stack'[i])
    {
      if i < |rest| {
        assert stack'[i] == stack[i];
      } else {
        assert stack'[i] in Neighbours(c);
        ConnectedStep(g, v, s, c, stack'[i]);
      }
    }
  }

  lemma RecolourKeepsFrontier(g: Grid, b: Grid, stack: seq<Cell>, v: nat, w: nat, s: Cell)
    requires v != w && SameShape(b, g)
    requires FrontierOnStack(g, b, stack, v, s)
    requires |stack| > 0 && Open(b, v, stack[|stack| - 1])
    ensures var c := stack[|stack| - 1];
      var row: seq<nat> := b[c.y][c.x := w];
      SameShape(b[c.y := row], g) && FrontierOnStack(g, b[c.y := row], stack[..|stack| - 1] + Neighbours(c), v, s)
  {
    var c := stack[|stack| - 1];
    var rest := stack[..|stack| - 1];
    var row: seq<nat> := b[c.y][c.x := w];
    var b' := b[c.y := row];
    var stack' := rest + Neighbours(c);
    assert SameShape(b', g);
    forall d, n | Filled(g, b', d) && n in Neighbours(d) && Open(b', v, n)
      ensures n in stack'
    {
      if d == c {
        assert n in Neighbours(c);
      } else {
        assert Filled(g, b, d) && Open(b, v, n) && n != c;
        InInit(stack, n);
      }
    }
    if Open(b', v, s) {
      assert Open(b, v, s) && s != c;
      InInit(stack, s);
    }
  }

  /**
   The fill tool. The seed is the cell under the pointer, so it lies in the
   grid. Popped positions outside the grid, or no longer holding the old
   value, are skipped; a recoloured cell pushes its four neighbours.
   */
  method FloodFill(g: Grid, sr: int, sc: int, newVal: nat) returns (b: Grid)
    requires IsBitmap(g)
    requires InBounds(g, Cell(sr, sc))
    ensures SameShape(b, g)
    ensures g[sr][sc] == newVal ==> b == g
    ensures forall y, x :: 0 <= y < |g| && 0 <= x < |g[y]| ==>
      b[y][x] == (if Reachable(g, Cell(sr, sc), Cell(y, x)) then newVal else g[y][x])
    ensures b == FillSpec(g, Cell(sr, sc), newVal)
  {
    var rows, cols := Rows(g), Cols(g);
    var oldVal := g[sr][sc];
    ghost var s := Cell(sr, sc);
    if oldVal == newVal {
      FillSpecNoOp(g, s, newVal);
      return g;
    }
    b := g;
    var stack := [Cell(sr, sc)];
    FillInvariantInit(g, oldVal, newVal, s);
    while |stack| > 0
      invariant FillInvariant(g, b, stack, oldVal, newVal, s)
      decreases OpenCells(b, oldVal), |stack|
    {
      var c := stack[|stack| - 1];
      if c.y < 0 || c.x < 0 || c.y >= rows || c.x >= cols || b[c.y][c.x] != oldVal {
        FillInvariantSkip(g, b, stack, oldVal, newVal, s);
        stack := stack[..|stack| - 1];
        continue;
      }
      FillInvariantRecolour(g, b, stack, oldVal, newVal, s);
      OpenCellsShrink(b, oldVal, newVal, c);
      stack := stack[..|stack| - 1];
      var row: seq<nat> := b[c.y][c.x := newVal];
      b := b[c.y := row];
      stack := stack + Neighbours(c);
    }
    FillComplete(g, b, oldVal, newVal, s);
    FillSpecPointwise(g, s, newVal, b);
  }

  /** A grid that agrees with the fill's definition cell by cell is the fill's result. */
  lemma FillSpecPointwise(g: Grid, s: Cell, w: nat, b: Grid)
    requires InBounds(g, s) && SameShape(b, g)
    requires forall y, x :: 0 <= y < |g| && 0 <= x < |g[y]| ==>
      b[y][x] == (if Reachable(g, s, Cell(y, x)) then w else g[y][x])
    ensures b == FillSpec(g, s, w)
  {
    assert forall y :: 0 <= y < |g| ==> b[y] == FillSpec(g, s, w)[y];
  }

  /** With the stack empty, the recoloured cells are exactly the seed's region. */
  lemma FillComplete(g: Grid, b: Grid, v: nat, w: nat, s: Cell)
    requires v != w && InBounds(g, s) && At(g, s) == v
    requires FillInvariant(g, b, [], v, w, s)
    ensures forall y, x :: 0 <= y < |g| && 0 <= x < |g[y]| ==>
      b[y][x] == (if Reachable(g, s, Cell(y, x)) then w else g[y][x])
  {
    EmptyStackClosed(g, b, v, w, s);
    forall y, x | 0 <= y < |g| && 0 <= x < |g[y]| && Reachable(g, s, Cell(y, x))
      ensures b[y][x] != g[y][x]
    {
      ClosedContainsConnected(g, b, v, s, Cell(y, x));
    }
  }

  /** With the stack empty, the seed is recoloured and no recoloured cell has an open neighbour. */
  lemma EmptyStackClosed(g: Grid, b: Grid, v: nat, w: nat, s: Cell)
    requires v != w && InBounds(g, s) && At(g, s) == v
    requires FillInvariant(g, b, [], v, w, s)
    ensures Filled(g, b, s)
    ensures forall c, n :: Filled(g, b, c) && n in Neighbours(c) && InBounds(g, n) && At(g, n) == v ==> Filled(g, b, n)
  {
    assert !Open(b, v, s);
    forall c, n | Filled(g, b, c) && n in Neighbours(c) && InBounds(g, n) && At(g, n) == v
      ensures Filled(g, b, n)
    {
      assert !Open(b, v, n);
    }
  }


  /** Filling with the value the seed already holds changes nothing. */
  lemma FillSpecNoOp(g: Grid, s: Cell, w: nat)
    requires InBounds(g, s) && At(g, s) == w
    ensures FillSpec(g, s, w) == g
  {
    var r := FillSpec(g, s, w);
    forall y | 0 <= y < |g|
      ensures r[y] == g[y]
    {
      forall x | 0 <= x < |g[y]|
        ensures r[y][x] == g[y][x]
      {
        if Reachable(g, s, Cell(y, x)) {
          ConnectedEnd(g, w, s, Cell(y, x));
        }
      }
    }
  }

  /** Filling the same seed twice with the same value is the same as filling once. */
  lemma FillSpecIdempotent(g: Grid, s: Cell, w: nat)
    requires InBounds(g, s)
    ensures FillSpec(FillSpec(g, s, w), s, w) == FillSpec(g, s, w)
  {
    ConnectedSelf(g, s);
    FillSpecNoOp(FillSpec(g, s, w), s, w);
  }

  /**
   Fill does not leak diagonally: when no orthogonal neighbour of the seed
   holds the seed's value, only the seed is recoloured, whatever its diagonal
   neighbours hold.
   */
  lemma FillSpecIsolatedSeed(g: Grid, s: Cell, w: nat)
    requires InBounds(g, s)
    requires forall n :: n in Neighbours(s) && InBounds(g, n) ==> At(g, n) != At(g, s)
    ensures FillSpec(g, s, w) == PaintAt(g, s.y, s.x, w)
  {
    var r := FillSpec(g, s, w);
    var q := PaintAt(g, s.y, s.x, w);
    ConnectedSelf(g, s);
    forall y | 0 <= y < |g|
      ensures r[y] == q[y]
    {
      forall x | 0 <= x < |g[y]|
        ensures r[y][x] == q[y][x]
      {
        if Reachable(g, s, Cell(y, x)) {
          IsolatedRegion(g, s, Cell(y, x));
        }
      }
    }
  }

  lemma IsolatedRegion(g: Grid, s: Cell, t: Cell)
    requires InBounds(g, s)
    requires forall n :: n in Neighbours(s) && InBounds(g, n) ==> At(g, n) != At(g, s)
    requires Reachable(g, s, t)
    ensures t == s
  {
    var p :| IsPath(g, At(g, s), p) && p[0] == s && p[|p| - 1] == t;
    if |p| > 1 {
      PathFirstStep(g, At(g, s), p);
      assert false;
    }
  }

  /** The second cell of a path is an in-bounds neighbour of the first holding the same value. */
  lemma PathFirstStep(g: Grid, v: nat, p: seq<Cell>)
    requires IsPath(g, v, p) && |p| > 1
    ensures p[1] in Neighbours(p[0]) && InBounds(g, p[1]) && At(g, p[1]) == v
  {
    assert p[0 + 1] in Neighbours(p[0]);
  }

  /** In a grid holding `v` everywhere, every cell is connected to every other. */
  lemma {:induction false} UniformConnected(g: Grid, v: nat, s: Cell, t: Cell)
    requires IsBitmap(g)
    requires forall y, x :: 0 <= y < |g| && 0 <= x < |g[y]| ==> g[y][x] == v
    requires InBounds(g, s) && InBounds(g, t)
    ensures Connected(g, v, s, t)
    decreases (if t.y < s.y then s.y - t.y else t.y - s.y) + (if t.x < s.x then s.x - t.x else t.x - s.x)
  {
    if t == s {
      ConnectedSelf(g, s);
    } else {
      var t': Cell;
      if t.y > s.y {
        t' := Cell(t.y - 1, t.x);
        assert t == Neighbours(t')[0];
      } else if t.y < s.y {
        t' := Cell(t.y + 1, t.x);
        assert t == Neighbours(t')[1];
      } else if t.x > s.x {
        t' := Cell(t.y, t.x - 1);
        assert t == Neighbours(t')[2];
      } else {
        t' := Cell(t.y, t.x + 1);
        assert t == Neighbours(t')[3];
      }
      assert |g[t'.y]| == |g[0]| == |g[t.y]|;
      UniformConnected(g, v, s, t');
      ConnectedStep(g, v, s, t', t);
    }
  }

  /** Filling a single-valued grid with a different value recolours every cell. */
  lemma FillSpecUniform(g: Grid, s: Cell, w: nat)
    requires IsBitmap(g) && InBounds(g, s)
    requires forall y, x :: 0 <= y < |g| && 0 <= x < |g[y]| ==> g[y][x] == At(g, s)
    ensures var r := FillSpec(g, s, w);
      HasShape(r, Rows(g), Cols(g)) && forall y, x :: 0 <= y < |r| && 0 <= x < |r[y]| ==> r[y][x] == w
  {
    forall y, x | 0 <= y < |g| && 0 <= x < |g[y]|
      ensures Reachable(g, s, Cell(y, x))
    {
      UniformConnected(g, At(g, s), s, Cell(y, x));
    }
  }

  /** Filling the 2 x 2 zero grid from its corner with 1 gives the 2 x 2 grid of ones. */
  lemma FillSpecTwoByTwo()
    ensures FillSpec([[0, 0], [0, 0]], Cell(0, 0), 1) == [[1, 1], [1, 1]]
  {
    var g: Grid := [[0, 0], [0, 0]];
    FillSpecUniform(g, Cell(0, 0), 1);
    var r := FillSpec(g, Cell(0, 0), 1);
    assert r[0] == [1, 1] && r[1] == [1, 1];
  }
}
