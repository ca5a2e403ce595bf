/**
 * The board of the Game of Life (board.py): a square grid of cells indexed
 * grid[y][x], a generation counter, and the operations that read, edit and
 * advance it.
 */
module Boards {
  import opened Wrappers
  import opened Cells
  import opened Life

  /** Why a board size is refused. */
  datatype SizeFault = NotPositive | NotSquare

  /** The errors a board raises as ValueError. */
  datatype Error = InvalidSize(fault: SizeFault) | InvalidCoordinates

  /**
   * _check_size_validity: both sides must be positive (tested first), then
   * equal. The tuple, arity and integer tests are settled by the types here.
   */
  function CheckSizeValidity(size: (int, int)): (r: Result<(), Error>)
    ensures r.Success? <==> size.0 > 0 && size.1 > 0 && size.0 == size.1
    ensures r == Failure(InvalidSize(NotPositive)) <==> size.0 <= 0 || size.1 <= 0
    ensures r.Failure? ==> r.error.InvalidSize?
  {
    if size.0 <= 0 || size.1 <= 0 then Failure(InvalidSize(NotPositive))
    else if size.0 != size.1 then Failure(InvalidSize(NotSquare))
    else Success(())
  }

  /** The index change_cell targets for a coordinate c: max(0, c - 1). */
  function EditIndex(c: int): (i: nat)
    ensures i == 0 <==> c <= 1
    ensures c >= 1 ==> i == c - 1
  {
    Max(0, c - 1)
  }

  /** The states of a row of cells. */
  function RowStates(row: seq<Cell>): (states: seq<State>)
    reads row
    ensures |states| == |row|
    ensures forall x :: 0 <= x < |row| ==> states[x] == row[x].state
  {
    seq(|row|, x requires 0 <= x < |row| reads row => row[x].state)
  }

  /** Snapshot g with the state of cell (x, y) flipped and nothing else changed. */
  function Toggled(g: Grid, x: nat, y: nat): (h: Grid)
    requires y < |g| && x < |g[y]|
    ensures |h| == |g| && (forall j :: 0 <= j < |g| ==> |h[j]| == |g[j]|)
    ensures forall j, i :: 0 <= j < |g| && 0 <= i < |g[j]| ==>
              h[j][i] == if (i, j) == (x, y) then Flip(g[j][i]) else g[j][i]
  {
    g[y := g[y][x := Flip(g[y][x])]]
  }

  /** Toggling the same cell twice gives back the snapshot. */
  lemma ToggledTwice(g: Grid, x: nat, y: nat)
    requires y < |g| && x < |g[y]|
    ensures Toggled(Toggled(g, x, y), x, y) == g
  {
    var h := Toggled(Toggled(g, x, y), x, y);
    forall j | 0 <= j < |g|
      ensures h[j] == g[j]
    {
      forall i | 0 <= i < |g[j]|
        ensures h[j][i] == g[j][i]
      {
        if (i, j) == (x, y) {
          FlipTwice(g[j][i]);
        }
      }
    }
  }

  /**
   * The grid the program allocates: rows of fresh cells built with the
   * default state "dead", the cell at grid[y][x] placed at position (x, y).
   */
  method FreshGrid(cols: nat, rows: nat) returns (grid: seq<seq<Cell>>)
    ensures |grid| == rows
    ensures forall y :: 0 <= y < rows ==> |grid[y]| == cols
    ensures forall y, x :: 0 <= y < rows && 0 <= x < cols ==>
              fresh(grid[y][x]) && grid[y][x].position == (x, y) && grid[y][x].state == Dead
  {
    grid := [];
    for y := 0 to rows
      invariant |grid| == y
      invariant forall j :: 0 <= j < y ==> |grid[j]| == cols
      invariant forall j, i :: 0 <= j < y && 0 <= i < cols ==>
                  fresh(grid[j][i]) && grid[j][i].position == (i, j) && grid[j][i].state == Dead
    {
      var row := FreshRow(cols, y);
      grid := grid + [row];
    }
  }

  /** One row of `cols` fresh dead cells at (0, y) .. (cols - 1, y). */
  method FreshRow(cols: nat, y: int) returns (row: seq<Cell>)
    ensures |row| == cols
    ensures forall x :: 0 <= x < cols ==> fresh(row[x]) && row[x].position == (x, y) && row[x].state == Dead
  {
    DefaultStateIsDead();
    row := [];
    for x := 0 to cols
      invariant |row| == x
      invariant forall i :: 0 <= i < x ==> fresh(row[i]) && row[i].position == (i, y) && row[i].state == Dead
    {
      var made := Cell.New(position := (x, y));
      row := row + [made.value];
    }
  }

  class Board {
    const size: (int, int)
    var grid: seq<seq<Cell>>
    var generation: int

    /** The board invariant: square and positive, grid[y][x] sits at (x, y). */
    ghost predicate Valid()
      reads this
    {
      size.0 > 0 && size.0 == size.1 && generation >= 0 &&
      |grid| == size.1 &&
      (forall y :: 0 <= y < |grid| ==> |grid[y]| == size.0) &&
      (forall y, x :: 0 <= y < |grid| && 0 <= x < |grid[y]| ==> grid[y][x].position == (x, y))
    }

    /** The cells of the grid. */
    ghost function Cells(): set<Cell>
      reads this
    {
      set y, x | 0 <= y < |grid| && 0 <= x < |grid[y]| :: grid[y][x]
    }

    /** The states of the grid, as the rules see them. */
    function Snapshot(): (g: Grid)
      reads this, Cells()
      requires Valid()
      ensures IsSquare(g) && |g| == size.0
      ensures forall y, x :: 0 <= y < |g| && 0 <= x < |g| ==> g[y][x] == grid[y][x].state
    {
      seq(|grid|, y requires 0 <= y < |grid| reads this, Cells() => RowStates(grid[y]))
    }

    constructor FromGrid(size: (int, int), grid: seq<seq<Cell>>)
      ensures this.size == size && this.grid == grid && generation == 0
    {
      this.size := size;
      this.grid := grid;
      generation := 0;
    }

    /**
     * Board(size): allocate the grid, then validate the size; a refused size
     * raises. A new board is square, all dead, each cell at its own index, at
     * generation 0.
     */
    static method New(size: (int, int)) returns (r: Result<Board, Error>)
      ensures r.Success? <==> size.0 > 0 && size.1 > 0 && size.0 == size.1
      ensures r.Failure? ==> r.error == CheckSizeValidity(size).error
      ensures r.Success? ==> fresh(r.value) && fresh(r.value.Cells()) && r.value.Valid()
      ensures r.Success? ==> r.value.size == size && r.value.generation == 0
      ensures r.Success? ==> AllDead(r.value.Snapshot())
    {
      var grid := FreshGrid(Max(0, size.1), Max(0, size.0));
      var checked := CheckSizeValidity(size);
      if checked.Failure? {
        return Failure(checked.error);
      }
      var b := new Board.FromGrid(size, grid);
      return Success(b);
    }

    /** get_x_size: the length of every row. */
    function XSize(): (n: int)
      reads this
      ensures Valid() ==> forall y :: 0 <= y < |grid| ==> |grid[y]| == n
    {
      size.0
    }

    /** get_y_size: the number of rows. */
    function YSize(): (n: int)
      reads this
      ensures Valid() ==> n == |grid|
    {
      size.1
    }

    /** get_board_size: the pair of the two getters. */
    function BoardSize(): (s: (int, int))
      reads this
      ensures s == (XSize(), YSize())
    {
      size
    }

    /** get_number_of_cells: rows times columns of the grid. */
    function NumberOfCells(): (n: int)
      reads this
      ensures Valid() ==> n == |grid| * |grid[0]| && n > 0
    {
      XSize() * YSize()
    }

    /** access_cell_directly: the cell at 0-based index (x, y), or an error outside the grid. */
    function AccessCellDirectly(coords: (int, int)): (r: Result<Cell, Error>)
      reads this
      requires Valid()
      ensures r.Success? <==> 0 <= coords.0 < XSize() && 0 <= coords.1 < YSize()
      ensures r.Success? ==> r.value == grid[coords.1][coords.0] && r.value.position == coords
      ensures r.Failure? ==> r.error == InvalidCoordinates
    {
      var (x, y) := coords;
      if 0 <= x < XSize() && 0 <= y < YSize() then Success(grid[y][x]) else Failure(InvalidCoordinates)
    }

    /**
     * change_cell: shift each coordinate to max(0, c - 1), then flip that one
     * cell; an index past the grid raises and leaves the board as it was.
     */
    method ChangeCell(coords: (int, int)) returns (r: Result<(), Error>)
      requires Valid()
      modifies Cells()
      ensures Valid() && generation == old(generation)
      ensures r.Success? <==> EditIndex(coords.0) < XSize() && EditIndex(coords.1) < YSize()
      ensures r.Failure? ==> r.error == InvalidCoordinates
      ensures Snapshot() == if r.Success? then Toggled(old(Snapshot()), EditIndex(coords.0), EditIndex(coords.1))
                            else old(Snapshot())
    {
      ghost var before := Snapshot();
      var x, y := coords.0, coords.1;
      x := Max(0, x - 1);
      y := Max(0, y - 1);
      if 0 <= x < XSize() && 0 <= y < YSize() {
        var cell := grid[y][x];
        var _ := cell.ChangeState();
        ghost var after, want := Snapshot(), Toggled(before, x, y);
        forall j | 0 <= j < |after|
          ensures after[j] == want[j]
        {
          forall i | 0 <= i < |after|
            ensures after[j][i] == want[j][i]
          {
            if (i, j) != (x, y) {
              assert grid[j][i].position != cell.position;
            }
          }
        }
        return Success(());
      } else {
        return Failure(InvalidCoordinates);
      }
    }

    /** count_live_neighbors: live cells of the clipped 3x3 window around (x, y), the centre excluded. */
    method CountLiveNeighbors(x: int, y: int) returns (liveCount: nat)
      requires Valid()
      ensures liveCount == Neighbours(Snapshot(), x, y)
    {
      var ilo, ihi := Max(0, x - 1), Min(x + 2, XSize());
      var jlo, jhi := Max(0, y - 1), Min(y + 2, YSize());
      liveCount := CountWindow(ilo, ihi, jlo, jhi, x, y);
    }

    /** The two loops of count_live_neighbors over columns ilo .. ihi - 1 and rows jlo .. jhi - 1. */
    method CountWindow(ilo: int, ihi: int, jlo: int, jhi: int, x: int, y: int) returns (liveCount: nat)
      requires Valid() && InRange(ilo, ihi, |grid|) && InRange(jlo, jhi, |grid|)
      ensures liveCount == WindowCount(Snapshot(), ilo, ihi, jlo, jhi, x, y)
    {
      ghost var g := Snapshot();
      liveCount := 0;
      var i := ilo;
      while i < ihi
        invariant ilo <= i && (i == ilo || i <= ihi)
        invariant liveCount == WindowCount(g, ilo, i, jlo, jhi, x, y)
      {
        var j := jlo;
        while j < jhi
          invariant jlo <= j && (j == jlo || j <= jhi)
          invariant liveCount == WindowCount(g, ilo, i, jlo, jhi, x, y) + ColumnCount(g, i, jlo, j, x, y)
        {
          assert g[j][i] == grid[j][i].state;
          if (i, j) != (x, y) && grid[j][i].CurrentState() == "alive" {
            liveCount := liveCount + 1;
          }
          j := j + 1;
        }
        i := i + 1;
      }
    }

    /**
     * The body of the loop of calculate_next_generation: newCell, still in its
     * initial state, is set to what the rule gives for cell's state and count n.
     */
    static method ApplyRule(cell: Cell, newCell: Cell, n: int)
      requires cell != newCell
      modifies newCell
      ensures newCell.state == Rule(cell.state, n)
    {
      if cell.CurrentState() == "alive" {
        if n < 2 || n > 3 {
          var _ := newCell.ChangeState(Some("dead"));
        } else {
          var _ := newCell.ChangeState(Some("alive"));
        }
      } else {
        if n == 3 {
          var _ := newCell.ChangeState(Some("alive"));
        } else {
          var _ := newCell.ChangeState(Some("dead"));
        }
      }
    }

    /**
     * The inner loop of calculate_next_generation for row y: each cell of
     * newRow receives the rule's state for the cell at the same index of the
     * current grid, whose states stay as they were.
     */
    method FillRow(newRow: seq<Cell>, y: int, ghost g: Grid)
      requires Valid() && g == Snapshot() && 0 <= y < YSize() && |newRow| == XSize()
      requires forall x :: 0 <= x < |newRow| ==> newRow[x].position == (x, y) && newRow[x] !in Cells()
      modifies newRow
      ensures Snapshot() == g
      ensures forall x :: 0 <= x < |newRow| ==> newRow[x].state == Rule(g[y][x], Neighbours(g, x, y))
    {
      for x := 0 to XSize()
        invariant Snapshot() == g
        invariant forall i :: 0 <= i < x ==> newRow[i].state == Rule(g[y][i], Neighbours(g, i, y))
      {
        var cell := grid[y][x];
        var newCell := newRow[x];
        var liveNeighborCount := CountLiveNeighbors(x, y);
        assert cell.state == g[y][x] && liveNeighborCount == Neighbours(g, x, y);
        assert newCell !in Cells() && cell in Cells();
        label before:
        ApplyRule(cell, newCell, liveNeighborCount);
        forall i | 0 <= i <= x
          ensures newRow[i].state == Rule(g[y][i], Neighbours(g, i, y))
        {
          if i < x {
            assert newRow[i].position != newCell.position;
            assert newRow[i].state == old@before(newRow[i].state);
          }
        }
      }
    }

    /**
     * calculate_next_generation: fill a freshly allocated all-dead grid by the
     * rule applied to counts read from the current grid only, then swap it in
     * and count one more generation.
     */
    method CalculateNextGeneration()
      requires Valid()
      modifies this
      ensures Valid()
      ensures generation == old(generation) + 1
      ensures Snapshot() == Step(old(Snapshot()))
      ensures fresh(Cells())
      ensures forall c :: c in old(Cells()) ==> c.state == old(c.state)
    {
      ghost var g := Snapshot();
      var newGrid: seq<seq<Cell>> := FreshGrid(XSize(), YSize());
      for y := 0 to YSize()
        invariant grid == old(grid) && generation == old(generation) && Snapshot() == g
        invariant forall j, i :: 0 <= j < y && 0 <= i < |g| ==>
                    newGrid[j][i].state == Rule(g[j][i], Neighbours(g, i, j))
      {
        label before:
        FillRow(newGrid[y], y, g);
        forall j, i | 0 <= j <= y && 0 <= i < |g|
          ensures newGrid[j][i].state == Rule(g[j][i], Neighbours(g, i, j))
        {
          if j < y {
            assert newGrid[j][i] !in newGrid[y];
            assert newGrid[j][i].state == old@before(newGrid[j][i].state);
          }
        }
      }
      generation := generation + 1;
      grid := newGrid;
      SnapshotIsStep(g);
    }

    /** A grid whose every cell holds the rule's state for g shows Step(g). */
    lemma SnapshotIsStep(g: Grid)
      requires Valid() && IsSquare(g) && |g| == |grid|
      requires forall j, i :: 0 <= j < |g| && 0 <= i < |g| ==>
                 grid[j][i].state == Rule(g[j][i], Neighbours(g, i, j))
      ensures Snapshot() == Step(g)
    {
      forall j | 0 <= j < |g|
        ensures Snapshot()[j] == Step(g)[j]
      {
      }
    }

    /** The per-row text print_board writes: reading it back gives the row's states. */
    function PrintedRows(): (rows: seq<string>)
      reads this, Cells()
      requires Valid()
      ensures |rows| == YSize()
      ensures forall y :: 0 <= y < |rows| ==> rows[y] == RowString(Snapshot()[y])
      ensures forall y :: 0 <= y < |rows| ==> ReadRow(rows[y]) == Snapshot()[y]
    {
      seq(|grid|, y requires 0 <= y < |grid| reads this, Cells() => RowString(RowStates(grid[y])))
    }
  }
}
