/*
 * generate_display_cells in maze_display.py: turns the grid and the two
 * registries into one [bottom, right] wall pair per cell, which the drawing
 * code then renders as line segments.
 */
module MazeDisplay {
  import opened MazeModel

  /** The walls drawn for one cell, in the order the list holds them: bottom, then right. */
  datatype DisplayCell = DisplayCell(bottom: bool, right: bool)

  /** Python's `not id` on a cell's id: true for None and for 0. */
  predicate Falsy(id: Option<int>) { id.None? || id.value == 0 }

  /** Every truthy id in the grid is registered, so no lookup fails. */
  predicate Registered(rows: map<int, Segment>, cols: map<int, Segment>, grid: seq<seq<Cell>>) {
    forall x, y | 0 <= x < |grid| && 0 <= y < |grid[x]| ::
      && (!Falsy(grid[x][y].row) ==> grid[x][y].row.value in rows)
      && (!Falsy(grid[x][y].col) ==> grid[x][y].col.value in cols)
  }

  /**
   * The walls of the cell c at (x, y): a right wall unless c belongs to a row
   * that goes on past it (it is not that row's head), and a bottom wall
   * unless it belongs to a column that goes on past it.
   */
  function WallsOf(rows: map<int, Segment>, cols: map<int, Segment>, x: int, y: int, c: Cell): DisplayCell
    requires !Falsy(c.row) ==> c.row.value in rows
    requires !Falsy(c.col) ==> c.col.value in cols
  {
    var right := Falsy(c.row) || rows[c.row.value].head == (x, y);
    var bottom := Falsy(c.col) || cols[c.col.value].head == (x, y);
    DisplayCell(bottom, right)
  }

  /** generate_display_cells: one column of wall pairs per grid column, cell by cell. */
  method GenerateDisplayCells(rows: map<int, Segment>, cols: map<int, Segment>, grid: seq<seq<Cell>>)
    returns (display: seq<seq<DisplayCell>>)
    requires Registered(rows, cols, grid)
    ensures |display| == |grid|
    ensures forall x | 0 <= x < |grid| :: |display[x]| == |grid[x]|
    ensures forall x, y | 0 <= x < |grid| && 0 <= y < |grid[x]| ::
      display[x][y] == WallsOf(rows, cols, x, y, grid[x][y])
  {
    display := [];
    var x := 0;
    while x < |grid|
      invariant 0 <= x <= |grid| && |display| == x
      invariant forall i | 0 <= i < x :: |display[i]| == |grid[i]|
      invariant forall i, j | 0 <= i < x && 0 <= j < |grid[i]| ::
        display[i][j] == WallsOf(rows, cols, i, j, grid[i][j])
    {
      var column: seq<DisplayCell> := [];
      var y := 0;
      while y < |grid[x]|
        invariant 0 <= y <= |grid[x]| && |column| == y
        invariant forall j | 0 <= j < y :: column[j] == WallsOf(rows, cols, x, j, grid[x][j])
      {
        var cell := grid[x][y];
        var right := Falsy(cell.row) || rows[cell.row.value].head == (x, y);
        var bottom := Falsy(cell.col) || cols[cell.col.value].head == (x, y);
        column := column + [DisplayCell(bottom, right)];
        y := y + 1;
      }
      display := display + [column];
      x := x + 1;
    }
  }

  /** Under the generator's invariant every id in the grid is registered, so the display never fails a lookup. */
  lemma InvRegistered(m: Maze)
    requires Inv(m)
    ensures Registered(m.rows, m.cols, m.grid)
  {
    forall x, y | 0 <= x < |m.grid| && 0 <= y < |m.grid[x]|
      ensures !Falsy(m.grid[x][y].row) ==> m.grid[x][y].row.value in m.rows
      ensures !Falsy(m.grid[x][y].col) ==> m.grid[x][y].col.value in m.cols
    {
      assert CellOk(m, m.grid[x][y]);
    }
  }

  /**
   * What the walls mean for a generator state: an unvisited cell is boxed in
   * on both sides; a visited cell has its right wall exactly when it is the
   * head of its row and its bottom wall exactly when it is the head of its
   * column (ids start at 1, so a registered id is never falsy).
   */
  lemma WallsMeaning(m: Maze, x: int, y: int)
    requires Inv(m) && InBounds(m, (x, y))
    ensures var c := At(m, (x, y));
      && (!Falsy(c.row) ==> c.row.value in m.rows)
      && (!Falsy(c.col) ==> c.col.value in m.cols)
      && var w := WallsOf(m.rows, m.cols, x, y, c);
      && (!CellVisited(c) ==> w.bottom && w.right)
      && (CellVisited(c) ==> c.row.value in m.rows && c.col.value in m.cols)
      && (CellVisited(c) ==> (w.right <==> m.rows[c.row.value].head == (x, y)))
      && (CellVisited(c) ==> (w.bottom <==> m.cols[c.col.value].head == (x, y)))
  {
    var c := At(m, (x, y));
    assert CellOk(m, m.grid[x][y]);
    if CellVisited(c) {
      assert SegOk(m, Row, c.row.value, SegsOn(m, Row)[c.row.value]);
      assert SegOk(m, Col, c.col.value, SegsOn(m, Col)[c.col.value]);
    }
  }
}
