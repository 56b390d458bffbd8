/**
 The engine's state and its operations as pure functions of that state.
 `world` is the generation on show; `nextWorld` is the buffer the next
 generation is computed into, and, right after an update, the generation
 before. Edits made outside an update clear the edited cells of `nextWorld`
 so that the renderer does not compare them against stale history.
 */
module Engine {
  import opened Grids
  import opened Rules
  import opened Oracle

  /** The engine: the side length of the torus and its two buffers. */
  datatype GameOfLife = GameOfLife(worldSize: int, world: Grid, nextWorld: Grid)

  /** Both buffers are `worldSize`×`worldSize`. */
  predicate Valid(g: GameOfLife) {
    g.worldSize >= 0 && IsSquare(g.world, g.worldSize) && IsSquare(g.nextWorld, g.worldSize)
  }

  /** A fresh engine: both buffers allocated at the given size, every cell dead. */
  function NewGOL(ws: int): (g: GameOfLife)
    requires ws >= 0
    ensures Valid(g) && g.worldSize == ws
    ensures AllDead(g.world, ws) && AllDead(g.nextWorld, ws)
  {
    GameOfLife(ws, Blank(ws), Blank(ws))
  }

  /**
   One generation: every cell gets the B3/S23 rule applied to its state and
   neighbour count in the current `world`, then the buffers swap, so that
   `nextWorld` holds the generation just left behind.
   */
  function Update(g: GameOfLife): (r: GameOfLife)
    requires Valid(g)
    ensures Valid(r) && r.worldSize == g.worldSize
    ensures r.nextWorld == g.world
    ensures forall x, y :: InBounds(g.worldSize, x, y) ==>
      (r.world[x][y] <==>
        var na := NeighborCount(g.world, g.worldSize, x, y);
        (g.world[x][y] && (na == 2 || na == 3)) || (!g.world[x][y] && na == 3))
  {
    g.(world := Step(g.world, g.worldSize), nextWorld := g.world)
  }

  /** The new generation is a function of the current `world` alone; the old contents of `nextWorld` never matter. */
  lemma UpdateReadsOnlyWorld(g: GameOfLife, h: GameOfLife)
    requires Valid(g) && Valid(h)
    requires g.worldSize == h.worldSize && g.world == h.world
    ensures Update(g) == Update(h)
  {
  }

  /** Sets one cell to `status` and wipes that cell's history in `nextWorld`; every other cell is left as it was. */
  function Set(g: GameOfLife, x: int, y: int, status: bool): (r: GameOfLife)
    requires Valid(g) && InBounds(g.worldSize, x, y)
    ensures Valid(r) && r.worldSize == g.worldSize
    ensures r.world[x][y] == status && !r.nextWorld[x][y]
    ensures forall a, b :: InBounds(g.worldSize, a, b) && (a, b) != (x, y) ==>
      r.world[a][b] == g.world[a][b] && r.nextWorld[a][b] == g.nextWorld[a][b]
  {
    g.(world := g.world[x := g.world[x][y := status]],
       nextWorld := g.nextWorld[x := g.nextWorld[x][y := false]])
  }

  /** Kills every cell of both buffers. */
  function Clear(g: GameOfLife): (r: GameOfLife)
    requires Valid(g)
    ensures Valid(r) && r.worldSize == g.worldSize
    ensures AllDead(r.world, r.worldSize) && AllDead(r.nextWorld, r.worldSize)
  {
    g.(world := Blank(g.worldSize), nextWorld := Blank(g.worldSize))
  }

  /** Clearing a cleared engine changes nothing. */
  lemma ClearIdempotent(g: GameOfLife)
    requires Valid(g)
    ensures Clear(Clear(g)) == Clear(g)
  {
  }

  /** A cleared engine is a fixed point of the update: nothing is born on an empty torus. */
  lemma ClearedIsStill(g: GameOfLife)
    requires Valid(g)
    ensures Update(Clear(g)) == Clear(g)
  {
    StepOfBlank(g.worldSize);
  }

  /**
   The renderer's colour choice: a live cell is drawn as newly alive when its
   `nextWorld` entry (the previous generation, or wiped history) is dead.
   */
  predicate NewlyAlive(g: GameOfLife, x: int, y: int): (b: bool)
    requires Valid(g) && InBounds(g.worldSize, x, y)
    ensures b ==> g.world[x][y]
  {
    g.world[x][y] && !g.nextWorld[x][y]
  }

  /** A cell set by hand is drawn as newly alive exactly when it was set alive. */
  lemma SetShowsAsNew(g: GameOfLife, x: int, y: int, status: bool)
    requires Valid(g) && InBounds(g.worldSize, x, y)
    ensures NewlyAlive(Set(g, x, y, status), x, y) <==> status
  {
  }

  /** After an update a cell is drawn as newly alive exactly when it was just born: dead before, with three live neighbours. */
  lemma UpdateShowsBirths(g: GameOfLife, x: int, y: int)
    requires Valid(g) && InBounds(g.worldSize, x, y)
    ensures NewlyAlive(Update(g), x, y) <==> !g.world[x][y] && NeighborCount(g.world, g.worldSize, x, y) == 3
  {
  }

  /** Half the side of the square that a reseed covers. */
  const Padding: int := 5

  /**
   `(x, y)` lies in the reseed square around `(xloc, yloc)`, which runs over
   the half-open ranges `[xloc - 5, xloc + 5)` and `[yloc - 5, yloc + 5)`,
   clipped to the grid.
   */
  predicate InWindow(n: int, xloc: int, yloc: int, x: int, y: int) {
    xloc - Padding <= x < xloc + Padding && yloc - Padding <= y < yloc + Padding && InBounds(n, x, y)
  }

  /** First in-grid coordinate of the reseed range around `c`. */
  function WindowLo(c: int): int {
    if c - Padding < 0 then 0 else c - Padding
  }

  /** One past the last in-grid coordinate of the reseed range around `c` on an `n`-wide grid. */
  function WindowHi(c: int, n: int): int {
    if c + Padding > n then n else c + Padding
  }

  /** How many in-grid coordinates the reseed range around `c` covers. */
  function WindowSpan(c: int, n: int): (s: nat)
    ensures s <= 2 * Padding
  {
    if WindowHi(c, n) > WindowLo(c) then WindowHi(c, n) - WindowLo(c) else 0
  }

  /** Which draw a reseed around `(xloc, yloc)` spends on the in-window cell `(x, y)`: cells are reseeded row by row. */
  function ReseedIndex(n: int, xloc: int, yloc: int, x: int, y: int): nat
    requires InWindow(n, xloc, yloc, x, y)
  {
    RowMajor(x - WindowLo(xloc), y - WindowLo(yloc), WindowSpan(yloc, n))
  }

  /**
   The reseed around `(xloc, yloc)` as a whole: in-window cells take their
   draw and lose their history, every other cell keeps both of its values.
   */
  function Reinitialize(g: GameOfLife, draws: Draws, xloc: int, yloc: int): (r: GameOfLife)
    requires Valid(g)
    ensures Valid(r) && r.worldSize == g.worldSize
    ensures forall x, y :: InWindow(g.worldSize, xloc, yloc, x, y) ==>
      r.world[x][y] == draws(ReseedIndex(g.worldSize, xloc, yloc, x, y)) && !r.nextWorld[x][y]
    ensures forall x, y :: InBounds(g.worldSize, x, y) && !InWindow(g.worldSize, xloc, yloc, x, y) ==>
      r.world[x][y] == g.world[x][y] && r.nextWorld[x][y] == g.nextWorld[x][y]
  {
    var n := g.worldSize;
    g.(world := seq(n, x requires 0 <= x < n => seq(n, y requires 0 <= y < n =>
                  if InWindow(n, xloc, yloc, x, y) then draws(ReseedIndex(n, xloc, yloc, x, y)) else g.world[x][y])),
       nextWorld := seq(n, x requires 0 <= x < n => seq(n, y requires 0 <= y < n =>
                  if InWindow(n, xloc, yloc, x, y) then false else g.nextWorld[x][y])))
  }

  /** Rows outside the reseed range `[xloc - 5, xloc + 5)` come out of a reseed whole. */
  lemma ReinitializeKeepsOuterRows(g: GameOfLife, draws: Draws, xloc: int, yloc: int, x: int)
    requires Valid(g) && 0 <= x < g.worldSize
    requires x < xloc - Padding || xloc + Padding <= x
    ensures Reinitialize(g, draws, xloc, yloc).world[x] == g.world[x]
    ensures Reinitialize(g, draws, xloc, yloc).nextWorld[x] == g.nextWorld[x]
  {
    var r := Reinitialize(g, draws, xloc, yloc);
    forall y | 0 <= y < g.worldSize
      ensures r.world[x][y] == g.world[x][y] && r.nextWorld[x][y] == g.nextWorld[x][y]
    {
      assert !InWindow(g.worldSize, xloc, yloc, x, y);
    }
  }

  /**
   A reseed whose window lies wholly off the grid changes nothing: the scan
   clips, it does not wrap around to the far edge.
   */
  lemma ReinitializeOffGridIsNoOp(g: GameOfLife, draws: Draws, xloc: int, yloc: int)
    requires Valid(g)
    requires xloc + Padding <= 0 || g.worldSize <= xloc - Padding || yloc + Padding <= 0 || g.worldSize <= yloc - Padding
    ensures Reinitialize(g, draws, xloc, yloc) == g
  {
    var r := Reinitialize(g, draws, xloc, yloc);
    forall x | 0 <= x < g.worldSize
      ensures r.world[x] == g.world[x] && r.nextWorld[x] == g.nextWorld[x]
    {
      forall y | 0 <= y < g.worldSize
        ensures r.world[x][y] == g.world[x][y] && r.nextWorld[x][y] == g.nextWorld[x][y]
      {
        assert !InWindow(g.worldSize, xloc, yloc, x, y);
      }
    }
  }

  /** Each reseeded cell gets a draw of its own, each below `WindowSpan(xloc) * WindowSpan(yloc)`. */
  lemma ReseedDrawsAreDistinct(n: int, xloc: int, yloc: int, x: int, y: int, x': int, y': int)
    requires InWindow(n, xloc, yloc, x, y) && InWindow(n, xloc, yloc, x', y')
    ensures ReseedIndex(n, xloc, yloc, x, y) < WindowSpan(xloc, n) * WindowSpan(yloc, n)
    ensures ReseedIndex(n, xloc, yloc, x, y) == ReseedIndex(n, xloc, yloc, x', y') ==> x == x' && y == y'
  {
    RowMajorBelow(x - WindowLo(xloc), y - WindowLo(yloc), WindowSpan(yloc, n), WindowSpan(xloc, n));
    if ReseedIndex(n, xloc, yloc, x, y) == ReseedIndex(n, xloc, yloc, x', y') {
      RowMajorInjective(x - WindowLo(xloc), y - WindowLo(yloc), x' - WindowLo(xloc), y' - WindowLo(yloc), WindowSpan(yloc, n));
    }
  }
}
