/** The integer grids that every generator writes: `int[,] mapGrid` is an
    `array2<int>` indexed `[x, y]`, and its value at one moment is a `Grid`,
    a sequence of columns, so that properties of grids can be stated and
    proved about values. */
module Grids {

  type Grid = seq<seq<int>>

  type Cell = (int, int)

  /** `g` has `w` columns of `h` cells each. */
  predicate Shaped(g: Grid, w: int, h: int)
  {
    |g| == w && h >= 0 && forall x | 0 <= x < w :: |g[x]| == h
  }

  predicate InBounds(x: int, y: int, w: int, h: int)
  {
    0 <= x < w && 0 <= y < h
  }

  /** The outer ring of cells of a w × h grid. */
  predicate OnBorder(x: int, y: int, w: int, h: int)
  {
    x == 0 || y == 0 || x == w - 1 || y == h - 1
  }

  /** The value of an array at this moment. */
  ghost function View(a: array2<int>): (g: Grid)
    reads a
    ensures Shaped(g, a.Length0, a.Length1)
    ensures forall x, y | 0 <= x < a.Length0 && 0 <= y < a.Length1 :: g[x][y] == a[x, y]
  {
    seq(a.Length0, x requires 0 <= x < a.Length0 reads a =>
      seq(a.Length1, y requires 0 <= y < a.Length1 reads a => a[x, y]))
  }

  /** Two grids of the same shape that agree on every cell are equal. */
  lemma Ext(g1: Grid, g2: Grid, w: int, h: int)
    requires Shaped(g1, w, h) && Shaped(g2, w, h)
    requires forall x, y | InBounds(x, y, w, h) :: g1[x][y] == g2[x][y]
    ensures g1 == g2
  {
    forall x | 0 <= x < w
      ensures g1[x] == g2[x]
    {
      assert forall y | 0 <= y < h :: g1[x][y] == g2[x][y] by {
        forall y | 0 <= y < h ensures g1[x][y] == g2[x][y] {
          assert InBounds(x, y, w, h);
        }
      }
    }
  }

  /** `g` with the cell (x, y) replaced by `v`. */
  function Set(g: Grid, w: int, h: int, x: int, y: int, v: int): (r: Grid)
    requires Shaped(g, w, h) && InBounds(x, y, w, h)
    ensures Shaped(r, w, h)
    ensures r[x][y] == v
    ensures forall i, j | InBounds(i, j, w, h) && (i, j) != (x, y) :: r[i][j] == g[i][j]
  {
    g[x := g[x][y := v]]
  }

  /** The cell (px, py) lies in the rectangle of columns x .. x + w - 1 and
      rows y .. y + h - 1. */
  predicate InRect(px: int, py: int, x: int, y: int, w: int, h: int)
  {
    x <= px < x + w && y <= py < y + h
  }

  /** The nested loops that write a room into the map: `g` with every cell
      of the rectangle that lies in the grid set to 1, and nothing else
      changed. */
  function FillRect(g: Grid, gw: int, gh: int, x: int, y: int, w: int, h: int): (s: Grid)
    requires Shaped(g, gw, gh)
    ensures Shaped(s, gw, gh)
    ensures forall px, py | InBounds(px, py, gw, gh) :: s[px][py] == if InRect(px, py, x, y, w, h) then 1 else g[px][py]
  {
    seq(gw, px requires 0 <= px < gw => seq(gh, py requires 0 <= py < gh => if InRect(px, py, x, y, w, h) then 1 else g[px][py]))
  }

  /** Every cell is 0 or 1. */
  ghost predicate Binary(g: Grid, w: int, h: int)
    requires Shaped(g, w, h)
  {
    forall x, y | InBounds(x, y, w, h) :: g[x][y] == 0 || g[x][y] == 1
  }

  /** Every border cell is 0. */
  ghost predicate BorderWall(g: Grid, w: int, h: int)
    requires Shaped(g, w, h)
  {
    forall x, y | InBounds(x, y, w, h) && OnBorder(x, y, w, h) :: g[x][y] == 0
  }
}
