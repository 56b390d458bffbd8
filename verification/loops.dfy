/**
 The engine's operations written the way the engine runs them: nested scans
 over the buffers, one cell at a time, with the generator consumed in scan
 order. Each method is proved to compute the pure operation of `Engine`, or,
 for the reseeding operations, the closed form of what lands in each cell.
 */
module Loops {
  import opened Grids
  import opened Rules
  import opened Oracle
  import opened Engine

  /** Reading the one-step-wrapped cell `(i, j)` is reading the torus at `(i, j)`, for coordinates at most one step off the grid. */
  lemma WrappedReadIsAt(g: Grid, n: int, i: int, j: int)
    requires n >= 1 && IsSquare(g, n) && -1 <= i <= n && -1 <= j <= n
    ensures 0 <= Wrap(i, n) < n && 0 <= Wrap(j, n) < n
    ensures g[Wrap(i, n)][Wrap(j, n)] == At(g, n, i, j)
  {
    WrapIsMod(i, n);
    WrapIsMod(j, n);
  }

  /**
   One non-centre step of the scan around the in-bounds cell `(x, y)`: the
   one-step-wrapped cell `(i, j)` it reads is the torus cell at the scan
   position of `(i - x, j - y)`, so counting it extends the count by one
   position.
   */
  lemma ScanStep(g: Grid, n: int, x: int, y: int, i: int, j: int)
    requires n >= 1 && IsSquare(g, n) && InBounds(n, x, y)
    requires x - 1 <= i <= x + 1 && y - 1 <= j <= y + 1 && !(i == x && j == y)
    ensures 0 <= Wrap(i, n) < n && 0 <= Wrap(j, n) < n
    ensures CountScan(g, n, x, y, BlockPos(i - x, j - y) + 1)
         == CountScan(g, n, x, y, BlockPos(i - x, j - y)) + (if g[Wrap(i, n)][Wrap(j, n)] then 1 else 0)
  {
    ScanStepLive(g, n, x, y, i, j);
    WrappedReadIsAt(g, n, i, j);
  }

  /** The same step, with the cell read as the torus cell `(i, j)`. */
  lemma ScanStepLive(g: Grid, n: int, x: int, y: int, i: int, j: int)
    requires n >= 1 && IsSquare(g, n)
    requires x - 1 <= i <= x + 1 && y - 1 <= j <= y + 1 && !(i == x && j == y)
    ensures 0 <= BlockPos(i - x, j - y) < 9
    ensures CountScan(g, n, x, y, BlockPos(i - x, j - y) + 1)
         == CountScan(g, n, x, y, BlockPos(i - x, j - y)) + Live(g, n, i, j)
  {
    BlockStep(g, n, x, y, i - x, j - y);
    assert x + (i - x) == i && y + (j - y) == j;
  }

  /** The step in terms of the offset `(dx, dy)` from the centre. */
  lemma BlockStep(g: Grid, n: int, x: int, y: int, dx: int, dy: int)
    requires n >= 1 && IsSquare(g, n)
    requires -1 <= dx <= 1 && -1 <= dy <= 1 && !(dx == 0 && dy == 0)
    ensures 0 <= BlockPos(dx, dy) < 9
    ensures CountScan(g, n, x, y, BlockPos(dx, dy) + 1)
         == CountScan(g, n, x, y, BlockPos(dx, dy)) + Live(g, n, x + dx, y + dy)
  {
    BlockOffsetOfPos(dx, dy);
    CountScanStep(g, n, x, y, BlockPos(dx, dy));
  }

  /**
   Counts the live cells around `(x, y)`, wrapping each coordinate by one step
   at either edge. Whatever `(x, y)` is, every read stays inside the grid and
   the count is at most 8; for an in-bounds cell it is the toroidal
   neighbour count.
   */
  method NeighborsAlive(g: GameOfLife, x: int, y: int) returns (nalive: int)
    requires Valid(g) && g.worldSize >= 1
    ensures 0 <= nalive <= 8
    ensures InBounds(g.worldSize, x, y) ==> nalive == NeighborCount(g.world, g.worldSize, x, y)
  {
    var n := g.worldSize;
    nalive := 0;
    for i := x - 1 to x + 2
      invariant 0 <= nalive <= Scanned(BlockPos(i - x, -1))
      invariant InBounds(n, x, y) ==> nalive == CountScan(g.world, n, x, y, BlockPos(i - x, -1))
    {
      for j := y - 1 to y + 2
        invariant 0 <= nalive <= Scanned(BlockPos(i - x, j - y))
        invariant InBounds(n, x, y) ==> nalive == CountScan(g.world, n, x, y, BlockPos(i - x, j - y))
      {
        if i == x && j == y {
          continue;
        }
        var alive := ReadWrapped(g, i, j);
        if InBounds(n, x, y) {
          ScanStep(g.world, n, x, y, i, j);
        }
        if alive {
          nalive := nalive + 1;
        }
      }
    }
  }

  /**
   Reads the cell `(i, j)` after wrapping each coordinate: a coordinate below
   the grid moves to the last row or column, one at or past the edge moves to
   the first, each test applied once and in that order.
   */
  method ReadWrapped(g: GameOfLife, i: int, j: int) returns (alive: bool)
    requires Valid(g) && g.worldSize >= 1
    ensures alive == g.world[Wrap(i, g.worldSize)][Wrap(j, g.worldSize)]
    ensures -1 <= i <= g.worldSize && -1 <= j <= g.worldSize ==> alive == At(g.world, g.worldSize, i, j)
  {
    var n := g.worldSize;
    var xloc, yloc := i, j;
    if xloc < 0 {
      xloc := n - 1;
    }
    if xloc >= n {
      xloc := 0;
    }
    if yloc < 0 {
      yloc := n - 1;
    }
    if yloc >= n {
      yloc := 0;
    }
    alive := g.world[xloc][yloc];
    if -1 <= i <= n && -1 <= j <= n {
      WrappedReadIsAt(g.world, n, i, j);
    }
  }

  /**
   The state the scan writes for cell `(x, y)` of the next generation: dead,
   unless the rule makes it alive from its state and live-neighbour count.
   */
  method NextState(g: GameOfLife, x: int, y: int) returns (v: bool)
    requires Valid(g) && InBounds(g.worldSize, x, y)
    ensures v == Rule(g.world[x][y], NeighborCount(g.world, g.worldSize, x, y))
  {
    var na := NeighborsAlive(g, x, y);
    v := false;
    if g.world[x][y] {
      if na == 2 || na == 3 {
        v := true;
      }
    } else if na == 3 {
      v := true;
    }
  }

  /**
   Computes the next generation cell by cell into `nextWorld`, reading only
   `world`, then swaps the buffers: the result is exactly `Engine.Update`.
   */
  method Update(g: GameOfLife) returns (r: GameOfLife)
    requires Valid(g)
    ensures r == Engine.Update(g)
  {
    var n := g.worldSize;
    var next := g.nextWorld;
    for x := 0 to n
      invariant IsSquare(next, n)
      invariant forall a :: 0 <= a < x ==> next[a] == Step(g.world, n)[a]
    {
      var row := UpdateRow(g, x, next[x]);
      next := next[x := row];
    }
    assert next == Step(g.world, n);
    r := g.(world := next, nextWorld := g.world);
  }

  /** One row of the update scan: row `x` of the next generation, written over the `n` cells of `row0`. */
  method UpdateRow(g: GameOfLife, x: int, row0: seq<bool>) returns (row: seq<bool>)
    requires Valid(g) && 0 <= x < g.worldSize && |row0| == g.worldSize
    ensures row == Step(g.world, g.worldSize)[x]
  {
    var n := g.worldSize;
    row := row0;
    for y := 0 to n
      invariant |row| == n
      invariant forall b :: 0 <= b < y ==> row[b] == Step(g.world, n)[x][b]
    {
      var v := NextState(g, x, y);
      row := row[y := v];
    }
  }

  /** Kills every cell of both buffers, row by row: the result is exactly `Engine.Clear`. */
  method Clear(g: GameOfLife) returns (r: GameOfLife)
    requires Valid(g)
    ensures r == Engine.Clear(g)
  {
    var n := g.worldSize;
    var world, nextWorld := g.world, g.nextWorld;
    for x := 0 to |world|
      invariant IsSquare(world, n) && IsSquare(nextWorld, n)
      invariant forall a :: 0 <= a < x ==> world[a] == Blank(n)[a] && nextWorld[a] == Blank(n)[a]
    {
      for y := 0 to |world[x]|
        invariant IsSquare(world, n) && IsSquare(nextWorld, n)
        invariant forall a :: 0 <= a < x ==> world[a] == Blank(n)[a] && nextWorld[a] == Blank(n)[a]
        invariant forall b :: 0 <= b < y ==> !world[x][b] && !nextWorld[x][b]
      {
        world := world[x := world[x][y := false]];
        nextWorld := nextWorld[x := nextWorld[x][y := false]];
      }
      assert world[x] == Blank(n)[x] && nextWorld[x] == Blank(n)[x];
    }
    assert world == Blank(n) && nextWorld == Blank(n);
    r := g.(world := world, nextWorld := nextWorld);
  }

  /**
   Reseeds every cell of `world`, row by row, each from the next draw;
   `nextWorld` is untouched. Cell `(x, y)` takes draw `x * n + y`, and the
   scan uses `n * n` draws.
   */
  method Initialize(g: GameOfLife, draws: Draws) returns (r: GameOfLife, used: nat)
    requires Valid(g)
    ensures Valid(r) && r.worldSize == g.worldSize && r.nextWorld == g.nextWorld
    ensures forall x, y :: InBounds(g.worldSize, x, y) ==> r.world[x][y] == draws(RowMajor(x, y, g.worldSize))
    ensures used == g.worldSize * g.worldSize
  {
    var n := g.worldSize;
    var world := g.world;
    used := 0;
    for x := 0 to |world|
      invariant IsSquare(world, n)
      invariant used == x * n
      invariant forall a, b :: 0 <= a < x && 0 <= b < n ==> world[a][b] == draws(RowMajor(a, b, n))
    {
      for y := 0 to |world[x]|
        invariant IsSquare(world, n)
        invariant used == x * n + y
        invariant forall a, b :: 0 <= a < x && 0 <= b < n ==> world[a][b] == draws(RowMajor(a, b, n))
        invariant forall b :: 0 <= b < y ==> world[x][b] == draws(RowMajor(x, b, n))
      {
        world := world[x := world[x][y := false]];
        if draws(used) {
          world := world[x := world[x][y := true]];
        }
        used := used + 1;
      }
    }
    r := g.(world := world);
  }

  /**
   Reseeds the cells of the half-open square `[xloc - 5, xloc + 5)` ×
   `[yloc - 5, yloc + 5)` that lie on the grid, skipping the rest, and wipes
   their history. In-window cells take their draws in scan order; cells off
   the window keep both of their values, with no wraparound. The scan uses one
   draw per in-window cell.
   */
  method Reinitialize(g: GameOfLife, draws: Draws, xloc: int, yloc: int) returns (r: GameOfLife, used: nat)
    requires Valid(g)
    ensures r == Engine.Reinitialize(g, draws, xloc, yloc)
    ensures Valid(r) && r.worldSize == g.worldSize
    ensures forall x, y :: InWindow(g.worldSize, xloc, yloc, x, y) ==>
      r.world[x][y] == draws(ReseedIndex(g.worldSize, xloc, yloc, x, y)) && !r.nextWorld[x][y]
    ensures forall x, y :: InBounds(g.worldSize, x, y) && !InWindow(g.worldSize, xloc, yloc, x, y) ==>
      r.world[x][y] == g.world[x][y] && r.nextWorld[x][y] == g.nextWorld[x][y]
    ensures used == WindowSpan(xloc, g.worldSize) * WindowSpan(yloc, g.worldSize)
  {
    var n := g.worldSize;
    var world, nextWorld := g.world, g.nextWorld;
    ghost var t := Engine.Reinitialize(g, draws, xloc, yloc);
    forall a | 0 <= a < n && (a < xloc - Padding || xloc + Padding <= a)
      ensures t.world[a] == g.world[a] && t.nextWorld[a] == g.nextWorld[a]
    {
      ReinitializeKeepsOuterRows(g, draws, xloc, yloc, a);
    }
    used := 0;
    for x := xloc - Padding to xloc + Padding
      invariant IsSquare(world, n) && IsSquare(nextWorld, n)
      invariant used == RowsDone(x, xloc, n) * WindowSpan(yloc, n)
      invariant forall a :: 0 <= a < n ==> world[a] == (if a < x then t.world[a] else g.world[a])
      invariant forall a :: 0 <= a < n ==> nextWorld[a] == (if a < x then t.nextWorld[a] else g.nextWorld[a])
    {
      world, nextWorld, used := ReseedRow(g, draws, xloc, yloc, x, world, nextWorld, used);
    }
    assert world == t.world && nextWorld == t.nextWorld;
    r := g.(world := world, nextWorld := nextWorld);
  }

  /**
   One row of the reseed scan: `x` fixed, `y` over `[yloc - 5, yloc + 5)`.
   An off-grid row is skipped cell by cell; an on-grid row comes out as the
   reseed makes it, with one draw spent per in-window cell.
   */
  method ReseedRow(g: GameOfLife, draws: Draws, xloc: int, yloc: int, x: int,
                   world0: Grid, nextWorld0: Grid, used0: nat)
    returns (world: Grid, nextWorld: Grid, used: nat)
    requires Valid(g) && IsSquare(world0, g.worldSize) && IsSquare(nextWorld0, g.worldSize)
    requires xloc - Padding <= x < xloc + Padding
    requires used0 == RowsDone(x, xloc, g.worldSize) * WindowSpan(yloc, g.worldSize)
    requires 0 <= x < g.worldSize ==> world0[x] == g.world[x] && nextWorld0[x] == g.nextWorld[x]
    ensures IsSquare(world, g.worldSize) && IsSquare(nextWorld, g.worldSize)
    ensures forall a :: 0 <= a < g.worldSize && a != x ==> world[a] == world0[a] && nextWorld[a] == nextWorld0[a]
    ensures 0 <= x < g.worldSize ==>
      world[x] == Engine.Reinitialize(g, draws, xloc, yloc).world[x] &&
      nextWorld[x] == Engine.Reinitialize(g, draws, xloc, yloc).nextWorld[x]
    ensures used == RowsDone(x + 1, xloc, g.worldSize) * WindowSpan(yloc, g.worldSize)
  {
    var n := g.worldSize;
    ghost var t := Engine.Reinitialize(g, draws, xloc, yloc);
    ghost var w := WindowSpan(yloc, n);
    world, nextWorld, used := world0, nextWorld0, used0;
    if 0 <= x < n {
      forall b | 0 <= b < n && (b < yloc - Padding || yloc + Padding <= b)
        ensures t.world[x][b] == g.world[x][b] && t.nextWorld[x][b] == g.nextWorld[x][b]
      {
        assert !InWindow(n, xloc, yloc, x, b);
      }
    }
    for y := yloc - Padding to yloc + Padding
      invariant IsSquare(world, n) && IsSquare(nextWorld, n)
      invariant used == used0 + (if 0 <= x < n then RowsDone(y, yloc, n) else 0)
      invariant forall a :: 0 <= a < n && a != x ==> world[a] == world0[a] && nextWorld[a] == nextWorld0[a]
      invariant !(0 <= x < n) ==> world == world0 && nextWorld == nextWorld0
      invariant 0 <= x < n ==> forall b :: 0 <= b < n ==>
        world[x][b] == (if b < y then t.world[x][b] else world0[x][b]) &&
        nextWorld[x][b] == (if b < y then t.nextWorld[x][b] else nextWorld0[x][b])
    {
      if x < 0 || y < 0 || x >= n || y >= n {
        continue;
      }
      RowsDoneStep(y, yloc, n);
      assert used == ReseedIndex(n, xloc, yloc, x, y) by {
        RowsDoneStep(x, xloc, n);
      }
      world := world[x := world[x][y := false]];
      nextWorld := nextWorld[x := nextWorld[x][y := false]];
      if draws(used) {
        world := world[x := world[x][y := true]];
      }
      used := used + 1;
    }
    RowsDoneStep(x, xloc, n);
    if 0 <= x < n {
      NextRowStart(RowsDone(x, xloc, n), w);
      assert world[x] == t.world[x];
      assert nextWorld[x] == t.nextWorld[x];
    }
  }

  /** Inside the reseed range and the grid, `RowsDone` counts from the range's first in-grid coordinate and advances by one. */
  lemma RowsDoneStep(x: int, c: int, n: int)
    requires c - Padding <= x < c + Padding
    ensures 0 <= x < n ==> RowsDone(x, c, n) == x - WindowLo(c) && RowsDone(x + 1, c, n) == RowsDone(x, c, n) + 1
    ensures !(0 <= x < n) ==> RowsDone(x + 1, c, n) == RowsDone(x, c, n)
    ensures x + 1 == c + Padding ==> RowsDone(x + 1, c, n) == WindowSpan(c, n)
  {
  }

  /** How many in-grid coordinates of the reseed range around `c` come before `x`. */
  function RowsDone(x: int, c: int, n: int): (k: nat)
    ensures k <= WindowSpan(c, n)
  {
    if x <= WindowLo(c) then 0
    else if x >= WindowHi(c, n) then WindowSpan(c, n)
    else x - WindowLo(c)
  }
}
