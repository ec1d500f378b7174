/** The grid of grid.py: the cell matrix built by the constructor, the
    coordinate universe it covers, and the pixel rectangle of each cell. */
module Grids {

  /** A (row, column) pair; the engine's set and map key. */
  datatype Coord = Coord(row: int, col: int)

  /** One grid position as the constructor creates it. */
  datatype Cell = Cell(row: int, col: int, isWall: bool)

  datatype Grid = Grid(rows: int, cols: int, cells: seq<seq<Cell>>)

  /** How many times `for i in range(n)` runs its body: never for n <= 0. */
  function Count(n: int): nat
  {
    if n < 0 then 0 else n
  }

  /** Every in-bounds coordinate of a rows x cols grid. */
  function Universe(rows: int, cols: int): set<Coord>
  {
    set r, c | 0 <= r < rows && 0 <= c < cols :: Coord(r, c)
  }

  /** The matrix has Count(rows) rows of Count(cols) cells, and the cell at
      position [r][c] carries the coordinates (r, c). */
  ghost predicate Shaped(g: Grid)
  {
    && |g.cells| == Count(g.rows)
    && (forall r :: 0 <= r < |g.cells| ==> |g.cells[r]| == Count(g.cols))
    && (forall r, c :: 0 <= r < |g.cells| && 0 <= c < |g.cells[r]| ==>
          g.cells[r][c].row == r && g.cells[r][c].col == c)
  }

  /** No cell is a wall. */
  ghost predicate NoWalls(g: Grid)
  {
    forall r, c :: 0 <= r < |g.cells| && 0 <= c < |g.cells[r]| ==> !g.cells[r][c].isWall
  }

  /** The coordinates carried by the cells of the matrix. */
  function CellCoords(g: Grid): set<Coord>
  {
    set r, c | 0 <= r < |g.cells| && 0 <= c < |g.cells[r]| :: Coord(g.cells[r][c].row, g.cells[r][c].col)
  }

  /** Grid.__init__: one row list per r in range(rows), each holding
      Cell(r, c) for c in range(cols); a fresh cell is never a wall. */
  method NewGrid(rows: int, cols: int) returns (g: Grid)
    ensures g.rows == rows && g.cols == cols
    ensures Shaped(g)
    ensures NoWalls(g)
  {
    var cells: seq<seq<Cell>> := [];
    var r := 0;
    while r < rows
      invariant 0 <= r <= Count(rows)
      invariant |cells| == r
      invariant forall i :: 0 <= i < r ==> |cells[i]| == Count(cols)
      invariant forall i, j :: 0 <= i < r && 0 <= j < |cells[i]| ==> cells[i][j] == Cell(i, j, false)
    {
      var row: seq<Cell> := [];
      var c := 0;
      while c < cols
        invariant 0 <= c <= Count(cols)
        invariant |row| == c
        invariant forall j :: 0 <= j < c ==> row[j] == Cell(r, j, false)
      {
        row := row + [Cell(r, c, false)];
        c := c + 1;
      }
      cells := cells + [row];
      r := r + 1;
    }
    g := Grid(rows, cols, cells);
  }

  lemma InUniverse(co: Coord, rows: int, cols: int)
    ensures co in Universe(rows, cols) <==> 0 <= co.row < rows && 0 <= co.col < cols
  {
    if 0 <= co.row < rows && 0 <= co.col < cols {
      assert co == Coord(co.row, co.col);
    }
  }

  /** The coordinates of one row of the universe. */
  function RowCoords(r: int, cols: int): set<Coord>
  {
    set c | 0 <= c < cols :: Coord(r, c)
  }

  lemma InRow(co: Coord, r: int, cols: int)
    ensures co in RowCoords(r, cols) <==> co.row == r && 0 <= co.col < cols
  {
    if co.row == r && 0 <= co.col < cols {
      assert co == Coord(r, co.col);
    }
  }

  lemma {:induction false} RowCoordsSize(r: int, cols: nat)
    ensures |RowCoords(r, cols)| == cols
  {
    if cols > 0 {
      RowCoordsSize(r, cols - 1);
      forall co
        ensures co in RowCoords(r, cols) <==> co in RowCoords(r, cols - 1) || co == Coord(r, cols - 1)
      {
        InRow(co, r, cols);
        InRow(co, r, cols - 1);
      }
      assert RowCoords(r, cols) == RowCoords(r, cols - 1) + {Coord(r, cols - 1)};
    } else {
      forall co | co in RowCoords(r, cols)
        ensures false
      {
        InRow(co, r, cols);
      }
    }
  }

  lemma UniverseEmpty(rows: int, cols: int)
    requires rows <= 0 || cols <= 0
    ensures Universe(rows, cols) == {}
  {
    forall co | co in Universe(rows, cols)
      ensures false
    {
      InUniverse(co, rows, cols);
    }
  }

  /** The universe of rows + 1 rows is that of rows rows plus one more row. */
  lemma UniverseAddRow(rows: nat, cols: int)
    ensures Universe(rows + 1, cols) == Universe(rows, cols) + RowCoords(rows, cols)
    ensures Universe(rows, cols) !! RowCoords(rows, cols)
  {
    forall co
      ensures co in Universe(rows + 1, cols) <==> co in Universe(rows, cols) || co in RowCoords(rows, cols)
      ensures !(co in Universe(rows, cols) && co in RowCoords(rows, cols))
    {
      InUniverse(co, rows + 1, cols);
      InUniverse(co, rows, cols);
    }
  }

  lemma {:induction false} UniverseSizeNat(rows: nat, cols: nat)
    ensures |Universe(rows, cols)| == rows * cols
  {
    if rows == 0 {
      UniverseEmpty(rows, cols);
    } else {
      UniverseSizeNat(rows - 1, cols);
      RowCoordsSize(rows - 1, cols);
      UniverseAddRow(rows - 1, cols);
      MulSucc(rows - 1, cols);
    }
  }

  lemma MulSucc(a: nat, b: nat)
    ensures (a + 1) * b == a * b + b
  {
  }

  /** A rows x cols grid has Count(rows) * Count(cols) in-bounds coordinates. */
  lemma UniverseSize(rows: int, cols: int)
    ensures |Universe(rows, cols)| == Count(rows) * Count(cols)
  {
    if rows <= 0 || cols <= 0 {
      UniverseEmpty(rows, cols);
    } else {
      UniverseSizeNat(rows, cols);
    }
  }

  /** Every coordinate of the universe is carried by exactly one cell of a
      shaped grid: the cells' coordinates are the universe, and there are as
      many of them as there are cells. */
  lemma EveryCoordinateOnce(g: Grid)
    requires Shaped(g)
    ensures CellCoords(g) == Universe(g.rows, g.cols)
    ensures |CellCoords(g)| == |g.cells| * Count(g.cols)
    ensures forall r, c :: 0 <= r < |g.cells| && 0 <= c < |g.cells[r]| ==>
              Coord(g.cells[r][c].row, g.cells[r][c].col) in Universe(g.rows, g.cols)
  {
    forall co | co in Universe(g.rows, g.cols)
      ensures co in CellCoords(g)
    {
      assert g.cells[co.row][co.col].row == co.row;
    }
    UniverseSize(g.rows, g.cols);
  }

  /** A pygame rectangle: origin (x, y), size width x height. */
  datatype Rect = Rect(x: int, y: int, width: int, height: int)

  /** pygame's Rect.collidepoint: the right and bottom edges are outside. */
  predicate Contains(rect: Rect, px: int, py: int)
  {
    rect.x <= px < rect.x + rect.width && rect.y <= py < rect.y + rect.height
  }

  /** Cell.rect: the cell's pixel rectangle for the configured cell size.
      It has the cell's size, and for a positive size its origin is the
      multiple of that size whose quotient is the cell's column (x) and
      row (y). */
  function CellRect(cell: Cell, cellWidth: int, cellHeight: int): (r: Rect)
    ensures r.width == cellWidth && r.height == cellHeight
    ensures cellWidth > 0 ==> r.x / cellWidth == cell.col && r.x % cellWidth == 0
    ensures cellHeight > 0 ==> r.y / cellHeight == cell.row && r.y % cellHeight == 0
  {
    assert cellWidth > 0 ==> (cell.col * cellWidth) / cellWidth == cell.col by {
      if cellWidth > 0 { DivBand(cell.col * cellWidth, cellWidth, cell.col); }
    }
    assert cellHeight > 0 ==> (cell.row * cellHeight) / cellHeight == cell.row by {
      if cellHeight > 0 { DivBand(cell.row * cellHeight, cellHeight, cell.row); }
    }
    Rect(cell.col * cellWidth, cell.row * cellHeight, cellWidth, cellHeight)
  }

  /** For a positive size w, the pixels q*w .. q*w + w - 1 are exactly those
      whose floor quotient by w is q. */
  lemma DivBand(px: int, w: int, q: int)
    requires w > 0
    ensures q * w <= px < q * w + w <==> px / w == q
  {
    var d := px / w;
    var m := px % w;
    assert px == d * w + m && 0 <= m < w;
    if q < d {
      assert (d - q) * w >= w by {
        assert d - q >= 1;
      }
      assert d * w - q * w >= w;
    } else if q > d {
      assert (q - d) * w >= w by {
        assert q - d >= 1;
      }
      assert q * w - d * w >= w;
    }
  }

  /** A pixel lies in a cell's rectangle exactly when floor division by the
      cell size gives back that cell's column and row. */
  lemma CellRectContains(cell: Cell, cellWidth: int, cellHeight: int, px: int, py: int)
    requires cellWidth > 0 && cellHeight > 0
    ensures CellRect(cell, cellWidth, cellHeight).width == cellWidth
    ensures CellRect(cell, cellWidth, cellHeight).height == cellHeight
    ensures Contains(CellRect(cell, cellWidth, cellHeight), px, py) <==>
              px / cellWidth == cell.col && py / cellHeight == cell.row
  {
    DivBand(px, cellWidth, cell.col);
    DivBand(py, cellHeight, cell.row);
  }

  /** For positive sizes, cells at different coordinates have disjoint
      rectangles: no pixel lies in both. */
  lemma CellRectsDisjoint(a: Cell, b: Cell, cellWidth: int, cellHeight: int, px: int, py: int)
    requires cellWidth > 0 && cellHeight > 0
    requires a.row != b.row || a.col != b.col
    ensures !(Contains(CellRect(a, cellWidth, cellHeight), px, py) &&
              Contains(CellRect(b, cellWidth, cellHeight), px, py))
  {
    CellRectContains(a, cellWidth, cellHeight, px, py);
    CellRectContains(b, cellWidth, cellHeight, px, py);
  }

}
