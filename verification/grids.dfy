/**
 Square boolean grids, as the engine stores them (`[][]bool` indexed `g[x][y]`),
 and the two ways a coordinate can be brought back onto an `n`-wide torus: the
 engine's one-step wrap and Dafny's (Euclidean) modulo.
 */
module Grids {

  /** A grid of cell states, indexed `g[x][y]`; `true` is alive. */
  type Grid = seq<seq<bool>>

  /** `g` has exactly `n` rows of exactly `n` cells. */
  predicate IsSquare(g: Grid, n: int) {
    |g| == n && forall x :: 0 <= x < |g| ==> |g[x]| == n
  }

  /** `(x, y)` addresses a cell of an `n`×`n` grid. */
  predicate InBounds(n: int, x: int, y: int) {
    0 <= x < n && 0 <= y < n
  }

  /** Every cell of the `n`×`n` grid `g` is dead. */
  ghost predicate AllDead(g: Grid, n: int)
    requires IsSquare(g, n)
  {
    forall x, y :: InBounds(n, x, y) ==> !g[x][y]
  }

  /** An `n`×`n` grid of dead cells: what a zero-filled allocation yields. */
  function Blank(n: nat): (g: Grid)
    ensures IsSquare(g, n) && AllDead(g, n)
  {
    seq(n, _ => seq(n, _ => false))
  }

  /**
   The engine's wraparound of one coordinate: a negative value becomes `n - 1`,
   a value at or past `n` becomes `0`, anything else is kept. The two tests run
   one after the other, exactly as the engine writes them.
   */
  function Wrap(i: int, n: int): (r: int)
    ensures n >= 1 ==> 0 <= r < n
    ensures 0 <= i < n ==> r == i
  {
    var a := if i < 0 then n - 1 else i;
    if a >= n then 0 else a
  }

  /**
   On the coordinates a neighbour scan of an in-bounds cell produces,
   `[-1, n]`, the one-step wrap is reduction modulo `n`.
   */
  lemma WrapIsMod(i: int, n: int)
    requires n >= 1 && -1 <= i <= n
    ensures Wrap(i, n) == i % n
  {
    if i == -1 {
      assert (-1) % n == n - 1 by {
        assert -1 == (-1) * n + (n - 1);
      }
    } else if i == n {
      assert n % n == 0 by {
        assert n == 1 * n + 0;
      }
    }
  }

  /**
   Beyond `[-1, n]` the one-step wrap is not modulo any more: two steps off
   either edge land on the wrong cell (for every `n >= 2`).
   */
  lemma WrapIsOnlyOneStep(n: int)
    requires n >= 2
    ensures Wrap(-2, n) != (-2) % n
    ensures Wrap(n + 1, n) != (n + 1) % n
  {
    if n == 2 {
      assert (-2) % 2 == 0;
    } else {
      assert (-2) % n == n - 2 by {
        assert -2 == (-1) * n + (n - 2);
      }
    }
    assert (n + 1) % n == 1 by {
      assert n + 1 == 1 * n + 1;
    }
  }
}
