/** The engine's two classes: Grid, the fixed-size cell array with periodic
    indexing and the per-cell rule, and GameOfLife, which owns a current grid
    and a next-generation buffer together with the integer screen geometry
    that maps clicks to cells. Rendering resources are not modelled. */
module Game {
  import opened Torus
  import opened Wrappers

  /** A pixel position on screen (unsigned in the C++ implementation). */
  datatype Position = Position(x: nat, y: nat)

  /** A rows x columns array of cells; the shape never changes after construction. */
  class Grid {
    var cells: Board

    ghost predicate Valid()
      reads this
    {
      WellFormed(cells)
    }

    /** All cells start dead; zero dimensions are a precondition failure. */
    constructor (rows: nat, columns: nat)
      requires rows > 0 && columns > 0
      ensures Valid()
      ensures Rows() == rows && Columns() == columns && GetSize() == Index(rows, columns)
      ensures forall i, j :: 0 <= i < rows && 0 <= j < columns ==> !At(Index(i, j))
      ensures cells == Dead(rows, columns)
    {
      cells := Dead(rows, columns);
    }

    /** The copy made by `buffer_{grid_}`: a distinct grid holding the same cells. */
    constructor Copy(other: Grid)
      requires other.Valid()
      ensures Valid() && cells == other.cells
    {
      cells := other.cells;
    }

    /** The number of rows, positive on every valid grid. */
    function Rows(): (r: nat)
      reads this
      ensures Valid() ==> r > 0
    {
      |cells|
    }

    /** The length of the first row, which does not exist on an empty grid. */
    function Columns(): (r: nat)
      reads this
      requires |cells| > 0
      ensures Valid() ==> r > 0 && forall i :: 0 <= i < |cells| ==> |cells[i]| == r
    {
      |cells[0]|
    }

    /** The size is one past the last index in each direction. */
    function GetSize(): (r: Index)
      reads this
      requires |cells| > 0
      ensures Valid() ==> r.row > 0 && r.col > 0 && InRange(cells, Index(r.row - 1, r.col - 1))
      ensures Valid() ==> !InRange(cells, Index(r.row, 0)) && !InRange(cells, Index(0, r.col))
    {
      Index(Rows(), Columns())
    }

    /** Unchecked read access: the index must already be in range. Writing
        the value read back leaves the cells as they are. */
    function At(ind: Index): (alive: bool)
      reads this
      requires Valid() && InRange(cells, ind)
      ensures Updated(cells, ind, alive) == cells
    {
      var alive := cells[ind.row][ind.col];
      assert cells[ind.row][ind.col := alive] == cells[ind.row];
      alive
    }

    /** A write through the reference the non-const `at` returns. */
    method SetAt(ind: Index, value: bool)
      requires Valid() && InRange(cells, ind)
      modifies this
      ensures Valid() && Rows() == old(Rows()) && Columns() == old(Columns())
      ensures cells == Updated(old(cells), ind, value)
    {
      cells := cells[ind.row := cells[ind.row][ind.col := value]];
    }

    /** Wraps any signed coordinate pair onto the torus: the Euclidean
        remainders, so always a valid index. */
    function GetPeriodicIndex(row: int, col: int): (r: Index)
      reads this
      requires Valid()
      ensures r.row < Rows() && r.col < Columns()
      ensures r.row == row % Rows() && r.col == col % Columns()
    {
      PeriodicIndex(Rows(), Columns(), row, col)
    }

    /** Sums the nine wrapped cells of the 3x3 block around ind, centre
        included, then applies the compressed rule. */
    method CheckCell(ind: Index) returns (alive: bool)
      requires Valid() && InRange(cells, ind)
      ensures alive == Next(cells, ind.row, ind.col)
    {
      var sum: nat := 0;
      var row, col := ind.row as int, ind.col as int;
      var i := row - 1;
      while i <= row + 1
        invariant row - 1 <= i <= row + 2
        invariant sum == BlockSum(cells, row - 1, i, col - 1, col + 2)
      {
        var j := col - 1;
        while j <= col + 1
          invariant col - 1 <= j <= col + 2
          invariant sum == BlockSum(cells, row - 1, i, col - 1, col + 2) + RowSum(cells, i, col - 1, j)
        {
          sum := sum + (if At(GetPeriodicIndex(i, j)) then 1 else 0);
          j := j + 1;
        }
        i := i + 1;
      }
      if sum == 3 {
        alive := true;
      } else if sum == 4 {
        alive := At(ind);
      } else {
        alive := false;
      }
    }
  }

  function Min(a: nat, b: nat): nat
  {
    if a <= b then a else b
  }

  /** (w - cellSize * count) / 2: the margin that centres count cells in w pixels. */
  function CentringOffset(w: nat, cellSize: nat, count: nat): (offset: nat)
    requires cellSize * count <= w
    ensures 2 * offset + cellSize * count <= w
    ensures w - cellSize * count <= 2 * offset + 1
  {
    (w - cellSize * count) / 2
  }

  /** w / cellSize cells of cellSize pixels fit into w, and one more would not. */
  lemma CellsFit(w: nat, cellSize: nat)
    requires cellSize > 0
    ensures cellSize * (w / cellSize) <= w < cellSize * (w / cellSize + 1)
  {
  }

  /** The simulation: a current grid, a next-generation buffer of the same
      shape, and the screen geometry (origin, size, cell size, centring
      offsets) used to map a click to a cell. */
  class GameOfLife {
    const startPos: Position
    var screenWidth: nat
    var screenHeight: nat
    var cellSize: nat

    const columns: nat
    const rows: nat

    var offsetX: nat
    var offsetY: nat

    const grid: Grid
    const buffer: Grid

    var isHidden: bool

    ghost predicate Valid()
      reads this, grid, buffer
    {
      grid != buffer && grid.Valid() && buffer.Valid()
      && grid.Rows() == rows && grid.Columns() == columns
      && buffer.Rows() == rows && buffer.Columns() == columns
      && 2 * offsetX + cellSize * columns <= screenWidth
      && 2 * offsetY + cellSize * rows <= screenHeight
      && isHidden == (cellSize == 0)
    }

    /** As many whole cells as fit on screen, centred; a zero cell size
        (division by zero) or a screen smaller than one cell (an empty grid)
        is a precondition failure. */
    constructor (upperLeft: Position, screenWidth: nat, screenHeight: nat, cellSize: nat)
      requires 0 < cellSize <= screenWidth && cellSize <= screenHeight
      ensures Valid() && fresh(grid) && fresh(buffer)
      ensures this.startPos == upperLeft && this.cellSize == cellSize
      ensures this.screenWidth == screenWidth && this.screenHeight == screenHeight
      ensures columns == screenWidth / cellSize && rows == screenHeight / cellSize
      ensures offsetX == (screenWidth - cellSize * columns) / 2
      ensures offsetY == (screenHeight - cellSize * rows) / 2
      ensures grid.cells == Dead(rows, columns) && buffer.cells == grid.cells
      ensures !isHidden
    {
      CellsFit(screenWidth, cellSize);
      CellsFit(screenHeight, cellSize);
      startPos := upperLeft;
      this.screenWidth := screenWidth;
      this.screenHeight := screenHeight;
      this.cellSize := cellSize;
      var c := screenWidth / cellSize;
      var r := screenHeight / cellSize;
      columns := c;
      rows := r;
      var g := new Grid(r, c);
      grid := g;
      buffer := new Grid.Copy(g);
      offsetX := CentringOffset(screenWidth, cellSize, c);
      offsetY := CentringOffset(screenHeight, cellSize, r);
      isHidden := false;
    }

    /** True when pos lies outside the rectangle the grid occupies on screen. */
    predicate IsOutOfScreenBounds(pos: Position)
      reads this, grid, buffer
      requires Valid()
      ensures cellSize == 0 ==> IsOutOfScreenBounds(pos)
    {
      pos.x < startPos.x + offsetX || pos.y < startPos.y + offsetY
      || pos.x >= startPos.x + cellSize * grid.Columns() + offsetX
      || pos.y >= startPos.y + cellSize * grid.Rows() + offsetY
    }

    /** The cell under pos, if any: None exactly off the grid; otherwise an
        in-range index whose on-screen square contains pos. */
    function GetIndexFromPositionOnScreen(pos: Position): (r: Option<Index>)
      reads this, grid, buffer
      requires Valid()
      ensures r.None? <==> IsOutOfScreenBounds(pos)
      ensures r.Some? ==> InRange(grid.cells, r.value)
      ensures r.Some? ==>
        startPos.x + offsetX + cellSize * r.value.col <= pos.x < startPos.x + offsetX + cellSize * r.value.col + cellSize
        && startPos.y + offsetY + cellSize * r.value.row <= pos.y < startPos.y + offsetY + cellSize * r.value.row + cellSize
    {
      if IsOutOfScreenBounds(pos) then None
      else
        var relativeX: nat := pos.x - startPos.x - offsetX;
        var relativeY: nat := pos.y - startPos.y - offsetY;
        Some(Index(CellCoordinate(relativeY, cellSize, rows), CellCoordinate(relativeX, cellSize, columns)))
    }

    /** Advances one generation: every buffer cell is computed from the
        unchanged current grid, then the buffer is copied into it. */
    method RunStep()
      requires Valid()
      modifies grid, buffer
      ensures Valid()
      ensures grid.cells == Step(old(grid.cells))
      ensures buffer.cells == grid.cells
    {
      var i := 0;
      while i < rows
        invariant 0 <= i <= rows
        invariant Valid()
        invariant grid.cells == old(grid.cells)
        invariant forall ii, jj :: 0 <= ii < i && 0 <= jj < columns ==>
                    buffer.cells[ii][jj] == Next(grid.cells, ii, jj)
      {
        var j := 0;
        while j < columns
          invariant 0 <= j <= columns
          invariant Valid()
          invariant grid.cells == old(grid.cells)
          invariant forall ii, jj :: 0 <= ii < i && 0 <= jj < columns ==>
                      buffer.cells[ii][jj] == Next(grid.cells, ii, jj)
          invariant forall jj :: 0 <= jj < j ==> buffer.cells[i][jj] == Next(grid.cells, i, jj)
        {
          var idx := Index(i, j);
          var alive := grid.CheckCell(idx);
          buffer.SetAt(idx, alive);
          j := j + 1;
        }
        i := i + 1;
      }
      var next := Step(grid.cells);
      assert buffer.cells == next by {
        forall ii | 0 <= ii < rows
          ensures buffer.cells[ii] == next[ii]
        {
          forall jj | 0 <= jj < columns
            ensures buffer.cells[ii][jj] == next[ii][jj]
          {
            StepAt(grid.cells, ii, jj);
          }
        }
      }
      grid.cells := buffer.cells;
    }

    /** Negates the clicked cell; a click off the grid changes nothing. */
    method HandleClick(clickPos: Position)
      requires Valid()
      modifies grid
      ensures Valid()
      ensures match old(GetIndexFromPositionOnScreen(clickPos))
                case Some(ind) => grid.cells == Toggled(old(grid.cells), ind)
                case None => grid.cells == old(grid.cells)
    {
      var cell := GetIndexFromPositionOnScreen(clickPos);
      if cell.Some? {
        grid.SetAt(cell.value, !grid.At(cell.value));
      }
    }

    /** Refits the cell size to a new window size. When not even one pixel per
        cell fits, the grid is hidden and the offsets and screen size are kept;
        otherwise the grid is re-centred. No cell changes either way. */
    method HandleResize(newWidth: nat, newHeight: nat)
      requires Valid()
      modifies this
      ensures Valid()
      ensures cellSize == Min(newWidth / columns, newHeight / rows)
      ensures isHidden == (cellSize == 0)
      ensures cellSize == 0 ==>
        offsetX == old(offsetX) && offsetY == old(offsetY)
        && screenWidth == old(screenWidth) && screenHeight == old(screenHeight)
      ensures cellSize != 0 ==>
        screenWidth == newWidth && screenHeight == newHeight
        && offsetX == (newWidth - cellSize * columns) / 2
        && offsetY == (newHeight - cellSize * rows) / 2
      ensures grid.cells == old(grid.cells) && buffer.cells == old(buffer.cells)
    {
      cellSize := Min(newWidth / columns, newHeight / rows);
      if cellSize == 0 {
        isHidden := true;
        return;
      }
      isHidden := false;
      CellsFit(newWidth, columns);
      CellsFit(newHeight, rows);
      assert cellSize * columns <= newWidth by {
        MulLeq(cellSize, newWidth / columns, columns);
      }
      assert cellSize * rows <= newHeight by {
        MulLeq(cellSize, newHeight / rows, rows);
      }
      offsetX := CentringOffset(newWidth, cellSize, columns);
      offsetY := CentringOffset(newHeight, cellSize, rows);
      screenWidth := newWidth;
      screenHeight := newHeight;
    }
  }

  /** relative / cellSize: for a pixel offset below count whole cells, the
      cell below count whose pixels [cellSize * k, cellSize * k + cellSize)
      contain the offset. */
  function CellCoordinate(relative: nat, cellSize: nat, count: nat): (k: nat)
    requires cellSize > 0 && relative < cellSize * count
    ensures k < count
    ensures cellSize * k <= relative < cellSize * k + cellSize
  {
    var k := relative / cellSize;
    CellsFit(relative, cellSize);
    assert k < count by {
      if count <= k {
        MulLeq(count, k, cellSize);
      }
    }
    k
  }

  lemma MulLeq(a: nat, b: nat, c: nat)
    requires a <= b
    ensures a * c <= b * c && c * a <= c * b
  {
  }
}
