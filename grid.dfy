/** The occupancy grid: which cells of the board the snake currently covers. */
module Grids {
  import opened Coords

  /** A column-major table of 0/1 marks, table[x][y] for cell (x, y). */
  type Table = seq<seq<int>>

  /** `t` has `columns` columns of `rows` entries each. */
  predicate IsTable(t: Table, columns: int, rows: int)
  {
    |t| == columns && forall x :: 0 <= x < |t| ==> |t[x]| == rows
  }

  /** `[[0 for j in range(rows)] for i in range(columns)]`. */
  function EmptyTable(columns: nat, rows: nat): (t: Table)
    ensures IsTable(t, columns, rows)
    ensures forall x, y :: 0 <= x < columns && 0 <= y < rows ==> t[x][y] == 0
  {
    seq(columns, i => seq(rows, j => 0))
  }

  /** The table with entry (x, y) set to v: `grid[x][y] = v`. */
  function Mark(t: Table, x: int, y: int, v: int): Table
    requires 0 <= x < |t| && 0 <= y < |t[x]|
  {
    t[x := t[x][y := v]]
  }

  /** Setting one entry changes that entry and nothing else, and keeps the shape. */
  lemma MarkEffect(t: Table, columns: int, rows: int, x: int, y: int, v: int)
    requires IsTable(t, columns, rows) && 0 <= x < columns && 0 <= y < rows
    ensures IsTable(Mark(t, x, y, v), columns, rows)
    ensures forall i, j :: 0 <= i < columns && 0 <= j < rows ==>
      Mark(t, x, y, v)[i][j] == if (i, j) == (x, y) then v else t[i][j]
  {
  }

  /** Whether a cell lies on a board of `columns` x `rows` cells. */
  predicate InBoard(c: Cell, columns: int, rows: int)
  {
    0 <= c.0 < columns && 0 <= c.1 < rows
  }

  class Grid {
    const side: int
    const width: int
    const height: int
    /** Number of columns, `width // side`. */
    const gWidth: nat
    /** Number of rows, `height // side`. */
    const gHeight: nat
    /** grid[x][y] is 1 when cell (x, y) is occupied and 0 when it is free. */
    var grid: Table

    ghost predicate Valid()
      reads this
    {
      && side > 0 && width >= 0 && height >= 0
      && gWidth == width / side && gHeight == height / side
      && IsTable(grid, gWidth, gHeight)
    }

    /** Whether a cell lies on the board, [0, gWidth) x [0, gHeight). */
    predicate Contains(c: Cell)
    {
      InBoard(c, gWidth, gHeight)
    }

    /** A cell the snake may not enter: off the board, or marked. */
    predicate Blocks(c: Cell)
      reads this
      requires Valid()
    {
      !Contains(c) || grid[c.0][c.1] == 1
    }

    constructor (side: int, width: int, height: int)
      requires side > 0 && width >= 0 && height >= 0
      ensures Valid()
      ensures this.side == side && this.width == width && this.height == height
      ensures gWidth == width / side && gHeight == height / side
      ensures grid == EmptyTable(gWidth, gHeight)
    {
      this.side, this.width, this.height := side, width, height;
      gWidth, gHeight := width / side, height / side;
      grid := EmptyTable(width / side, height / side);
    }

    method Occupy(x: int, y: int)
      requires Valid() && Contains((x, y))
      modifies this
      ensures Valid()
      ensures grid == Mark(old(grid), x, y, 1)
    {
      grid := grid[x := grid[x][y := 1]];
    }

    method Unoccupy(x: int, y: int)
      requires Valid() && Contains((x, y))
      modifies this
      ensures Valid()
      ensures grid == Mark(old(grid), x, y, 0)
    {
      grid := grid[x := grid[x][y := 0]];
    }

    /** Replaces the table by a fresh all-free one of the same dimensions. */
    method Reset()
      requires Valid()
      modifies this
      ensures Valid() && grid == EmptyTable(gWidth, gHeight)
    {
      grid := EmptyTable(width / side, height / side);
    }
  }
}
