/**
 The rule of the automaton: B3/S23 on an `n`×`n` torus. A cell's neighbours
 are the eight cells of the surrounding 3×3 block, each coordinate reduced
 modulo `n`; the next generation applies the rule to every cell at once.
 */
module Rules {
  import opened Grids

  /**
   B3/S23: a live cell survives with two or three live neighbours, a dead cell
   is born with exactly three, and every other cell is dead next generation.
   */
  function Rule(alive: bool, na: int): (next: bool)
    ensures next <==> na == 3 || (alive && na == 2)
    ensures alive && (na < 2 || na > 3) ==> !next
  {
    if alive then na == 2 || na == 3 else na == 3
  }

  /**
   Position `p`, from 0 to 8, of a row-by-row scan of the 3×3 block, as the
   offset `(dx, dy)` it visits; position 4 is the centre.
   */
  function BlockOffset(p: int): (int, int) {
    var dx := if p < 3 then -1 else if p < 6 then 0 else 1;
    (dx, p - 3 * (dx + 1) - 1)
  }

  /** The scan position of offset `(dx, dy)`. */
  function BlockPos(dx: int, dy: int): int {
    3 * (dx + 1) + (dy + 1)
  }

  /**
   The nine scan positions are the nine offsets of the 3×3 block, each once;
   the centre, and only the centre, sits at position 4.
   */
  lemma BlockScanIsTheNeighbourhood()
    ensures forall p :: 0 <= p < 9 ==> -1 <= BlockOffset(p).0 <= 1 && -1 <= BlockOffset(p).1 <= 1
    ensures forall p :: 0 <= p < 9 ==> BlockPos(BlockOffset(p).0, BlockOffset(p).1) == p
    ensures forall dx, dy :: -1 <= dx <= 1 && -1 <= dy <= 1 ==> BlockOffset(BlockPos(dx, dy)) == (dx, dy)
    ensures forall p :: 0 <= p < 9 ==> (BlockOffset(p) == (0, 0) <==> p == 4)
  {
    forall dx, dy | -1 <= dx <= 1 && -1 <= dy <= 1
      ensures BlockOffset(BlockPos(dx, dy)) == (dx, dy)
    {
      BlockOffsetOfPos(dx, dy);
    }
  }

  lemma BlockOffsetOfPos(dx: int, dy: int)
    requires -1 <= dx <= 1 && -1 <= dy <= 1
    ensures 0 <= BlockPos(dx, dy) < 9 && BlockOffset(BlockPos(dx, dy)) == (dx, dy)
  {
    var p := BlockPos(dx, dy);
    assert p == 3 * (dx + 1) + (dy + 1);
  }

  /** The cell at `(x, y)` of the torus: both coordinates are taken modulo `n`. */
  function At(g: Grid, n: int, x: int, y: int): bool
    requires n >= 1 && IsSquare(g, n)
  {
    g[x % n][y % n]
  }

  /** 1 for a live cell of the torus, 0 for a dead one. */
  function Live(g: Grid, n: int, x: int, y: int): nat
    requires n >= 1 && IsSquare(g, n)
  {
    if At(g, n, x, y) then 1 else 0
  }

  /** How many of the first `p` scan positions are not the centre. */
  function Scanned(p: int): int {
    if p > 4 then p - 1 else p
  }

  /**
   How many of the first `p` positions of the scan around `(x, y)`, the
   centre left out, hold a live cell of the torus.
   */
  function CountScan(g: Grid, n: int, x: int, y: int, p: nat): (c: nat)
    requires n >= 1 && IsSquare(g, n) && p <= 9
    ensures c <= Scanned(p)
  {
    if p == 0 then 0
    else
      var d := BlockOffset(p - 1);
      CountScan(g, n, x, y, p - 1) + (if p - 1 == 4 then 0 else Live(g, n, x + d.0, y + d.1))
  }

  /** Scanning one more non-centre position adds that position's cell to the count. */
  lemma CountScanStep(g: Grid, n: int, x: int, y: int, p: nat)
    requires n >= 1 && IsSquare(g, n) && p < 9 && p != 4
    ensures CountScan(g, n, x, y, p + 1) == CountScan(g, n, x, y, p) + Live(g, n, x + BlockOffset(p).0, y + BlockOffset(p).1)
  {
  }

  /** The number of live cells among the eight toroidal neighbours of `(x, y)`. */
  function NeighborCount(g: Grid, n: int, x: int, y: int): (c: nat)
    requires n >= 1 && IsSquare(g, n)
    ensures c <= 8
  {
    CountScan(g, n, x, y, 9)
  }

  /** The neighbour count spelled out: one term per surrounding cell. */
  lemma NeighborCountUnrolled(g: Grid, n: int, x: int, y: int)
    requires n >= 1 && IsSquare(g, n)
    ensures NeighborCount(g, n, x, y)
         == Live(g, n, x - 1, y - 1) + Live(g, n, x - 1, y) + Live(g, n, x - 1, y + 1)
          + Live(g, n, x, y - 1) + Live(g, n, x, y + 1)
          + Live(g, n, x + 1, y - 1) + Live(g, n, x + 1, y) + Live(g, n, x + 1, y + 1)
  {
    var c := 0;
    assert BlockOffset(0) == (-1, -1);
    c := c + Live(g, n, x - 1, y - 1);
    assert CountScan(g, n, x, y, 1) == c;
    assert BlockOffset(1) == (-1, 0);
    c := c + Live(g, n, x - 1, y);
    assert CountScan(g, n, x, y, 2) == c;
    assert BlockOffset(2) == (-1, 1);
    c := c + Live(g, n, x - 1, y + 1);
    assert CountScan(g, n, x, y, 3) == c;
    assert BlockOffset(3) == (0, -1);
    c := c + Live(g, n, x, y - 1);
    assert CountScan(g, n, x, y, 4) == c;
    assert CountScan(g, n, x, y, 5) == c;
    assert BlockOffset(5) == (0, 1);
    c := c + Live(g, n, x, y + 1);
    assert CountScan(g, n, x, y, 6) == c;
    assert BlockOffset(6) == (1, -1);
    c := c + Live(g, n, x + 1, y - 1);
    assert CountScan(g, n, x, y, 7) == c;
    assert BlockOffset(7) == (1, 0);
    c := c + Live(g, n, x + 1, y);
    assert CountScan(g, n, x, y, 8) == c;
    assert BlockOffset(8) == (1, 1);
    c := c + Live(g, n, x + 1, y + 1);
    assert CountScan(g, n, x, y, 9) == c;
  }

  /** One generation: every cell of `g` gets the rule applied to its current state and neighbour count. */
  function Step(g: Grid, n: int): (h: Grid)
    requires n >= 0 && IsSquare(g, n)
    ensures IsSquare(h, n)
  {
    seq(n, x requires 0 <= x < n =>
      seq(n, y requires 0 <= y < n => Rule(g[x][y], NeighborCount(g, n, x, y))))
  }

  /** On a torus with no live cell every count is zero. */
  lemma {:induction false} CountScanOfDead(g: Grid, n: int, x: int, y: int, p: nat)
    requires n >= 1 && IsSquare(g, n) && AllDead(g, n) && p <= 9
    ensures CountScan(g, n, x, y, p) == 0
  {
    if p > 0 {
      var d := BlockOffset(p - 1);
      CountScanOfDead(g, n, x, y, p - 1);
      assert !At(g, n, x + d.0, y + d.1) by {
        assert InBounds(n, (x + d.0) % n, (y + d.1) % n);
      }
    }
  }

  /** A dead torus stays dead: with no live cell anywhere, no cell is born. */
  lemma StepOfBlank(n: nat)
    ensures Step(Blank(n), n) == Blank(n)
  {
    var b := Blank(n);
    var s := Step(b, n);
    forall x | 0 <= x < n
      ensures s[x] == b[x]
    {
      forall y | 0 <= y < n
        ensures s[x][y] == b[x][y]
      {
        CountScanOfDead(b, n, x, y, 9);
      }
    }
  }
}
