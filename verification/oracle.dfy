/**
 The random source, abstracted. The engine asks its generator for one float
 per cell it reseeds and keeps the cell alive when the float falls below a
 threshold; all that matters to the grid is the sequence of those yes/no
 answers, in the order they are asked for. `Draws` is that sequence.
 */
module Oracle {

  /** `draws(k)`: whether the `k`-th float taken from the generator fell below the threshold. */
  type Draws = nat -> bool

  /** Position of cell `(x, y)` in a row-by-row scan of rows `w` cells wide. */
  function RowMajor(x: nat, y: nat, w: nat): nat {
    x * w + y
  }

  /** A scan of `h` rows of `w` cells uses the positions below `h * w`. */
  lemma RowMajorBelow(x: nat, y: nat, w: nat, h: nat)
    requires x < h && y < w
    ensures RowMajor(x, y, w) < h * w
  {
    calc {
      RowMajor(x, y, w);
      < x * w + w;
      == (x + 1) * w;
      <= { MulMonotone(x + 1, h, w); }
      h * w;
    }
  }

  /** Distinct cells of rows `w` wide take distinct positions: no two cells share a draw. */
  lemma RowMajorInjective(x: nat, y: nat, x': nat, y': nat, w: nat)
    requires y < w && y' < w
    requires RowMajor(x, y, w) == RowMajor(x', y', w)
    ensures x == x' && y == y'
  {
    if x < x' {
      RowMajorBelow(x, y, w, x');
    } else if x' < x {
      RowMajorBelow(x', y', w, x);
    }
  }

  /** The row after row `x` starts `w` positions later. */
  lemma NextRowStart(x: nat, w: nat)
    ensures (x + 1) * w == x * w + w
  {
  }

  lemma MulMonotone(a: nat, b: nat, w: nat)
    requires a <= b
    ensures a * w <= b * w
  {
    assert b * w == a * w + (b - a) * w;
  }
}
