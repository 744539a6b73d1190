/**
 * The map object of the path finder: the character matrix read from a map
 * file, its dimensions and the coordinates of the start symbol.
 */
module Maze {
  import opened Grid

  /** NUM_COLUMNS, NUM_ROWS and NUM_VERTICES as initMap derives them. */
  datatype Dims = Dims(columns: int, rows: int, vertices: int)

  /**
   * The width is taken from the first line only, the height is the number of
   * lines, and the vertex count is the number of cells inside the border.
   */
  function Dimensions(lines: seq<string>): (d: Dims)
    requires |lines| > 0
    ensures d.columns == |lines[0]| && d.rows == |lines|
    ensures d.columns >= 2 && d.rows >= 2 ==> d.vertices == |Interior(d.columns, d.rows)|
  {
    var columns, rows := |lines[0]|, |lines|;
    var d := Dims(columns, rows, (columns - 2) * (rows - 2));
    if columns >= 2 && rows >= 2 then InteriorSize(columns, rows); d else d
  }

  /**
   * A walled grid has at most NUM_VERTICES open cells, so a search that only
   * ever overwrites open cells writes at most NUM_VERTICES cells.
   */
  lemma OpenCellsWithinVertices(g: Grid)
    requires Walled(g) && |g[0]| >= 2 && |g| >= 2
    ensures |OpenCells(g)| <= Dimensions(g).vertices
  {
    OpenCellsInterior(g);
    SubsetSize(OpenCells(g), Interior(|g[0]|, |g|));
  }

  class Map {
    var grid: seq<string>   // mapMatrix, one string per line, indexed grid[y][x]
    var numColumns: int
    var numRows: int
    var numVertices: int
    var startX: int
    var startY: int

    /** The dimension fields agree with the matrix, as initMap leaves them. */
    ghost predicate Valid()
      reads this
    {
      |grid| > 0 && Dimensions(grid) == Dims(numColumns, numRows, numVertices)
    }

    /** A fresh map: an empty matrix; the integer fields are indeterminate. */
    constructor ()
      ensures grid == []
    {
      grid := [];
    }

    /**
     * Appends the lines of the map file to the matrix and recomputes the
     * dimensions from the whole matrix.
     */
    method InitMap(lines: seq<string>)
      requires |grid| + |lines| > 0
      modifies this`grid, this`numColumns, this`numRows, this`numVertices
      ensures grid == old(grid) + lines
      ensures Valid()
    {
      grid := grid + lines;
      numColumns := |grid[0]|;
      numRows := |grid|;
      numVertices := (numColumns - 2) * (numRows - 2);
    }
  }
}
