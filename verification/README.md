# Game of Life engine, modelled in Dafny

This project models the simulation engine of a Conway's Game of Life program
written in Go (`main.go`). The engine is a `GameOfLife` value that holds a side
length `worldSize` and two `worldSize`×`worldSize` boolean grids:

- `world` is the generation on show;
- `nextWorld` is the buffer that the next generation is written into. Right
  after an update it holds the generation before, and the renderer uses it to
  tell newly born cells from old ones.

The engine's operations are construction (`NewGOL`), random seeding
(`Initialize`), the toroidal neighbour count (`NeighborsAlive`), one generation
(`Update`, rule B3/S23 followed by a buffer swap), and three edits:

- `Set` writes one cell;
- `Clear` kills every cell;
- `Reinitialize` reseeds a clipped square around a point.

The files are:

- `grids.dfy` (module `Grids`): grids as `seq<seq<bool>>`, the square-shape
  predicate, the all-dead grid, and the engine's one-step coordinate wrap,
  `Wrap`. It proves that `Wrap` is reduction modulo `n` on `[-1, n]` and,
  for `n >= 2`, nowhere wider.
- `oracle.dfy` (module `Oracle`): the random generator, abstracted. Each
  comparison `rng.Float64() < f` becomes one entry of a boolean stream
  `Draws = nat -> bool`, consumed in scan order. `RowMajor` gives the position
  of a cell in a row-by-row scan.
- `rules.dfy` (module `Rules`): the rule itself and the neighbour count on the
  torus. `CountScan` counts the 3×3 block in the engine's scan order, leaving
  out the centre. `NeighborCount` is the full count, and `Step` is one
  generation as a pure function.
- `engine.dfy` (module `Engine`): the engine state and every operation as a
  pure function, with its frame conditions and the lemmas that relate the
  operations to one another.
- `loops.dfy` (module `Loops`): the operations written as the engine runs
  them, as nested loops over the buffers that consume draws one cell at a
  time. Each loop method is proved to compute the pure function from
  `Engine`, or the closed form of every cell.

The reseed scans the half-open ranges `[xloc - 5, xloc + 5)` and
`[yloc - 5, yloc + 5)`, which is a 10×10 square. The comment above the
function says 11×11. The model follows the code.

`NewGOL` has no size check: Go's `make` accepts 0 and panics only on a
negative size. The model follows the code, so `NewGOL` requires `ws >= 0` and
builds an empty engine for 0. The model does not add an error result for
non-positive sizes.

## Model

| member | source | states |
|---|---|---|
| Grids.Wrap | main.go:57-69 | for `n >= 1` the wrapped coordinate always indexes the grid, and an in-range coordinate is left alone |
| Grids.WrapIsMod | main.go:52-69 | on every coordinate the neighbour loops produce, `[-1, n]`, the one-step wrap equals reduction modulo `n` |
| Grids.WrapIsOnlyOneStep | main.go:57-69 | for every `n >= 2` the wrap disagrees with modulo at `-2` and at `n + 1`, so it is only correct one step off the grid |
| Rules.Rule | main.go:83-90 | the next state is alive exactly when the count is 3, or the cell is alive and the count is 2; a live cell with fewer than 2 or more than 3 neighbours dies |
| Rules.BlockScanIsTheNeighbourhood | main.go:52-56 | the nine scan positions are exactly the nine offsets of the 3×3 block, each once, and only position 4 is the centre that the scan skips |
| Rules.NeighborCount | main.go:50-76 | the count of live neighbours is at most 8 |
| Rules.NeighborCountUnrolled | main.go:52-75 | the neighbour count is the sum over the eight offsets `(dx, dy) != (0, 0)` of the torus cell `((x + dx) mod n, (y + dy) mod n)` |
| Rules.CountScan | main.go:52-74 | the count over the first `p` positions of the row-by-row scan of the 3×3 block is at most the number of non-centre positions among them |
| Rules.Step | main.go:80-92 | one generation of an `n`×`n` grid is again an `n`×`n` grid; its cells are stated by `Engine.Update` |
| Rules.StepOfBlank | main.go:79-92 | on a torus with no live cell, one generation produces no live cell |
| Engine.NewGOL | main.go:156-168 | the new engine has `worldSize = ws`, both grids are `ws`×`ws`, and every cell of both is dead |
| Engine.Update | main.go:79-94 | both grids stay `n`×`n`; the new `nextWorld` is the old `world`; a cell of the new `world` is alive iff it was alive with 2 or 3 live neighbours or dead with exactly 3, counted in the old `world` |
| Engine.UpdateReadsOnlyWorld | main.go:80-93 | two engines that differ only in `nextWorld` update to the same engine |
| Engine.Set | main.go:149-153 | the cell takes `status` and its `nextWorld` entry becomes dead; every other cell of both grids is unchanged |
| Engine.Clear | main.go:139-146 | every cell of both grids is dead and the size is kept |
| Engine.ClearIdempotent | main.go:139-146 | clearing twice gives the same engine as clearing once |
| Engine.ClearedIsStill | main.go:79-94 | updating a cleared engine gives back the cleared engine |
| Engine.NewlyAlive | main.go:102-105 | only a live cell can get the newly-alive colour; which live cells get it is stated by `Engine.SetShowsAsNew` and `Engine.UpdateShowsBirths` |
| Engine.SetShowsAsNew | main.go:149-153 | after `Set`, the renderer's newly-alive test on that cell holds exactly when the cell was set alive |
| Engine.UpdateShowsBirths | main.go:93 | after an update, a cell passes the renderer's newly-alive test exactly when it was dead with three live neighbours |
| Engine.ReinitializeKeepsOuterRows | main.go:123 | rows outside `[xloc - 5, xloc + 5)` come out of a reseed unchanged in both grids |
| Engine.Reinitialize | main.go:121-136 | both grids keep their size; an on-grid cell in the window takes its own draw, in scan order, and has no history; every other cell keeps both of its values |
| Engine.ReinitializeOffGridIsNoOp | main.go:125-127 | a reseed whose window misses the grid leaves the engine as it was: the scan clips and never wraps |
| Engine.ReseedDrawsAreDistinct | main.go:123-133 | each in-window cell uses a different draw, all below `span(xloc) * span(yloc)` |
| Oracle.RowMajorInjective | main.go:39-44 | in a row-by-row scan, two cells with the same draw position are the same cell |
| Loops.NeighborsAlive | main.go:50-76 | for any `(x, y)` as an unbounded integer (Go's 64-bit overflow at the limits is not modelled) the scan reads only in-bounds cells and returns a value in `[0, 8]`; for an in-bounds cell the value is the toroidal neighbour count |
| Loops.ReadWrapped | main.go:57-70 | the cell read is the one at the one-step-wrapped coordinates, which are in bounds; for coordinates at most one step off the grid it is the torus cell `(i mod n, j mod n)` |
| Loops.ScanStep | main.go:52-72 | each off-centre read of the scan around an in-bounds cell extends the count by the torus cell at the next scan position |
| Loops.NextState | main.go:82-90 | the value written for a cell is the rule applied to the cell and its neighbour count |
| Loops.UpdateRow | main.go:81-91 | the scan of one row writes exactly that row of the next generation |
| Loops.Update | main.go:79-94 | the in-place scan followed by the swap yields exactly the pure `Engine.Update` |
| Loops.Clear | main.go:139-146 | the in-place clearing scan yields exactly the pure `Engine.Clear` |
| Loops.Initialize | main.go:38-47 | `nextWorld` is untouched; cell `(x, y)` of `world` takes draw `x * n + y`; exactly `n * n` draws are used |
| Loops.Reinitialize | main.go:121-136 | the scan yields exactly the pure `Engine.Reinitialize`; in-window cells hold their draws and no history, other cells are unchanged, and `span(xloc) * span(yloc)` draws are used |
| Loops.ReseedRow | main.go:124-134 | one pass of the inner loop rewrites only row `x`, leaves it as the reseed makes it, and advances the draw count by that row's in-window cells |

## Left out

- `Draw`, `run` and `main`: rendering, the window, input polling, the frame
  ticker and profiling are I/O. Only the renderer's colour choice is kept, as
  the predicate `Engine.NewlyAlive`.
- The package-level globals (title, sizes, scale, fill factor, shared
  generator, pause flag) are configuration, not logic.
- The random generator and its float comparisons are replaced by the boolean
  stream `Draws`. The fill factor `f` of `Initialize` and the threshold `0.5`
  of `Reinitialize` are folded into the stream's values.
- Engine.NewGOL: requires `ws >= 0`, where Go's `make` would panic on a
  negative size. There is no error result, because the code has none.
- Engine.Set: an out-of-bounds coordinate is a precondition, where Go would
  panic on the slice index.
- Loops.NeighborsAlive: requires `worldSize >= 1`, since the wrapped read of an
  empty grid panics in Go. `Update` never calls it on an empty grid. The count
  is tied to the torus count only for in-bounds cells. For cells further off
  the grid, the one-step wrap is not modulo (see `Grids.WrapIsOnlyOneStep`),
  and the model proves only the range and safety of the reads. Coordinates
  are unbounded integers, whereas Go's `int` is 64-bit. At `x` or `y` =
  `MaxInt64 - 1` the Go call never returns. At `MaxInt64` or `MinInt64` the
  loop bounds overflow and the call reads nothing and returns 0, where the
  model's scan reads the wrapped cells. So the model's scan is the Go scan
  only when `MinInt64 < x, y < MaxInt64 - 1`. The one caller, `Update`,
  passes `0 <= x, y < n`.
- Slices are modelled as values. The Go methods mutate shared slices in place
  and swap slice headers, so the model has no aliasing to reason about. In the
  engine the two buffers are allocated separately and never alias.
- On tori of side 1 or 2, neighbours that coincide are counted once per
  offset. The model counts them the same way as the code does.
