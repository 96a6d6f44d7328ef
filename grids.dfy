/** Dense two-dimensional grids (images and masks) and their relation to `array2`. */
module Grids {

  /** An 8-bit sample (NumPy `uint8`). */
  type Byte = x: int | 0 <= x < 256

  function Min(a: int, b: int): int {
    if a <= b then a else b
  }

  function Max(a: int, b: int): int {
    if a <= b then b else a
  }

  /** A grid in row-major order: `g[y][x]` is the sample at row `y`, column `x`. */
  type Grid<T> = seq<seq<T>>

  /** A pixel position as (row, column), the order NumPy indexes images in. */
  type Cell = (int, int)

  /** The grid has `h` rows of `w` samples each. */
  predicate IsRect<T>(g: Grid<T>, h: nat, w: nat) {
    |g| == h && forall y :: 0 <= y < h ==> |g[y]| == w
  }

  predicate InGrid<T>(g: Grid<T>, c: Cell) {
    0 <= c.0 < |g| && 0 <= c.1 < |g[c.0]|
  }

  function At<T>(g: Grid<T>, c: Cell): T
    requires InGrid(g, c)
  {
    g[c.0][c.1]
  }

  /** The contents of a two-dimensional array as a grid value. */
  ghost function Snapshot<T>(a: array2<T>): (g: Grid<T>)
    reads a
    ensures IsRect(g, a.Length0, a.Length1)
    ensures forall y, x :: 0 <= y < a.Length0 && 0 <= x < a.Length1 ==> g[y][x] == a[y, x]
  {
    seq(a.Length0, y requires 0 <= y < a.Length0 reads a =>
      seq(a.Length1, x requires 0 <= x < a.Length1 reads a => a[y, x]))
  }

  /** Two grids of one shape that agree sample by sample are equal. */
  lemma {:induction false} GridExtensionality<T>(a: Grid<T>, b: Grid<T>, h: nat, w: nat)
    requires IsRect(a, h, w) && IsRect(b, h, w)
    requires forall y, x :: 0 <= y < h && 0 <= x < w ==> a[y][x] == b[y][x]
    ensures a == b
  {
    forall y | 0 <= y < h
      ensures a[y] == b[y]
    {
      assert forall x :: 0 <= x < w ==> a[y][x] == b[y][x];
    }
  }
}
