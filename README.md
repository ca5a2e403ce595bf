# Game of Life: the cell and board core in Dafny

This project models the simulation core of a Python Conway's Game of Life
program (`cell.py` and `board.py`) and proves what that core promises.

- **`Cell`** is a class with a mutable `state` and a constant `position`.
  - The constructor case-folds its state text and accepts only `"dead"` or `"alive"`.
  - `change_state` either flips the state or sets it to a validated text.
- **`Board`** is a class that owns a square grid of `Cell` objects, indexed
  `grid[y][x]`, and a `generation` counter. It offers:
  - size validation;
  - the size getters and the cell count;
  - a bounds-checked cell lookup;
  - `change_cell`, which shifts each coordinate by `max(0, c - 1)` and then flips that one cell;
  - the neighbour count over the 3x3 window, clipped at the border;
  - `calculate_next_generation`, a double-buffered step. It fills a freshly
    allocated all-dead grid, taking every count from the old grid, then swaps
    the new grid in and increments `generation`.

Layout:

- `wrappers.dfy`: `Option` and `Result`. A `Failure` value stands for a raised `ValueError`.
- `cell.dfy` (module `Cells`): the two states, the state text checks, case folding, and `class Cell`.
- `life.dfy` (module `Life`): the rules as pure functions over a snapshot `Grid = seq<seq<State>>`.
  - `ColumnCount` and `WindowCount` follow the two counting loops.
  - `NeighbourSet` is an independent set-based definition of the count.
  - `Rule` is the birth/survival rule and `Step` is the next generation.
  - It also holds the row text used for printing.
- `board.dfy` (module `Boards`): `class Board` and its imperative methods.
  - Every method is proved against `Snapshot()`, the grid of states the board currently shows.
  - The invariant `Valid()` says that the board is square and positive, that `generation >= 0`, and that `grid[y][x]` sits at position `(x, y)`.

The main results:

- `CountLiveNeighbors` returns `Neighbours(Snapshot(), x, y)`.
  - `NeighboursIsCardinality` shows that this number is the size of the set of live cells in the clipped window, other than the centre.
  - `NeighboursBound` shows that it is at most 8, and at most 3 at a corner.
- `CalculateNextGeneration` leaves `Snapshot() == Step(old(Snapshot()))`.
  - Every new cell follows `Rule` on counts taken from the old grid only.
  - The board stays valid, `generation` goes up by exactly one, the new cells are fresh, and no old cell is changed.

## Model

| member | source | states |
|---|---|---|
| Cells.CheckStateValidity | cell.py:45-53 | a state text is accepted exactly when it is "dead" or "alive"; the accepted state's name is that text; a refusal carries the text |
| Cells.Flip | cell.py:78-81 | the toggled state always differs from the current one |
| Cells.FlipTwice | cell.py:73-81 | toggling twice restores the original state |
| Cells.CaseFold | cell.py:19 | folding keeps the length and lower-cases each character independently |
| Cells.CaseFoldIdempotent | cell.py:19 | folding an already folded text changes nothing |
| Cells.FoldedState | cell.py:19-23 | the constructor's check accepts exactly the texts that fold to "dead" or "alive"; it reports the folded text on refusal |
| Cells.DefaultStateIsDead | cell.py:2 | the default state text "dead" is accepted and means Dead |
| Cells.AnyCaseAccepted | cell.py:19-23 | any spelling that folds to a state's name, e.g. "ALIVE", yields that state |
| Cells.Cell.New | cell.py:2-23 | construction succeeds exactly when the folded text is valid; on success the cell is fresh, keeps the given position and holds the named state; on refusal the error names the folded text |
| Cells.Cell.CurrentState | cell.py:55-57 | the state getter returns "dead" or "alive", and "alive" exactly when the cell is Alive |
| Cells.Cell.CurrentPosition | cell.py:59-69 | get_current_position is the pair of get_x_position and get_y_position (modelled by XPosition and YPosition); the position is a constant field, so all three return the constructor's position |
| Cells.Cell.ChangeState | cell.py:71-84 | with no argument it flips the state and succeeds; with a text it succeeds exactly when the text is "dead" or "alive" (unfolded) and stores that state; a refused text leaves the state unchanged |
| Life.ColumnCountIsCardinality | board.py:123-125 | the inner loop's count equals the number of live non-centre cells of the column range |
| Life.WindowCountIsCardinality | board.py:122-125 | the two loops' count equals the number of live non-centre cells of the rectangle |
| Life.NeighboursIsCardinality | board.py:119-126 | the neighbour count is the size of the set of live cells (i, j) != (x, y) with max(0,x-1) <= i < min(x+2,size), and likewise for j |
| Life.NeighboursBound | board.py:119-126 | the neighbour count is at most 8, and at most 3 at a corner (no wrap-around) |
| Life.Rule | board.py:105-114 | the next state is Alive exactly when n == 3, or when the cell is alive and n == 2 |
| Life.Step | board.py:95-114 | the next generation keeps the square shape and size, and each cell is the rule applied to its old state and old count |
| Life.AllDeadStaysDead | board.py:95-114 | an all-dead board is unchanged by a step |
| Life.LoneCellDies | board.py:95-114 | a board with a single live cell is all dead after one step |
| Life.RowString | board.py:89-92 | the printed row has one glyph per cell: '@' for alive, '+' for dead |
| Life.RowStringRoundTrip | board.py:92 | the printed row determines the row's states |
| Boards.CheckSizeValidity | board.py:31-46 | a size is accepted exactly when both sides are positive and equal; the non-positive fault is reported exactly when a side is not positive |
| Boards.EditIndex | board.py:79-80 | the shifted index is 0 exactly when c <= 1, and c - 1 otherwise |
| Boards.Toggled | board.py:82-83 | the edited snapshot differs from the old one in the chosen cell only, which is flipped |
| Boards.ToggledTwice | board.py:76-85 | editing the same cell twice restores the snapshot |
| Boards.FreshRow | board.py:97 | a new row has cols fresh dead cells, cell x at (x, y) |
| Boards.FreshGrid | board.py:25 | a new grid has rows rows of cols fresh dead cells, grid[y][x] at (x, y) |
| Boards.Board.New | board.py:5-29 | construction succeeds exactly when the size is valid and raises the validation error otherwise; a new board is valid, all dead, at generation 0, with the given size and fresh cells |
| Boards.Board.XSize | board.py:48-50 | get_x_size is the length of every row |
| Boards.Board.YSize | board.py:52-54 | get_y_size is the number of rows |
| Boards.Board.BoardSize | board.py:56-58 | get_board_size is the pair of the two getters |
| Boards.Board.NumberOfCells | board.py:64-66 | the cell count is rows times columns of the grid, and positive |
| Boards.Board.AccessCellDirectly | board.py:68-74 | the lookup succeeds exactly when 0 <= x < xsize and 0 <= y < ysize; it returns grid[y][x], whose position is the given pair; otherwise it is an invalid-coordinates error |
| Boards.Board.ChangeCell | board.py:76-85 | the edit succeeds exactly when both shifted indices are inside the board; it then flips that one cell and no other, and a refused edit changes nothing; generation and validity are kept |
| Boards.Board.CountLiveNeighbors | board.py:119-126 | the count returned is Neighbours of the current snapshot at (x, y), for any integer x and y |
| Boards.Board.CountWindow | board.py:122-125 | the two nested loops return WindowCount of the snapshot over the given ranges |
| Boards.Board.ApplyRule | board.py:105-114 | the new cell receives exactly Rule(old state, n) through change_state |
| Boards.Board.FillRow | board.py:100-114 | every cell of the new row receives the rule's state for the same index of the old grid, and the old grid's states stay as they were |
| Boards.Board.CalculateNextGeneration | board.py:95-117 | the new snapshot is Step of the old one; the board stays valid (same size, positions at their indices); generation goes up by one; the new cells are fresh and no old cell changes state |
| Boards.Board.SnapshotIsStep | board.py:116-117 | once every cell holds the rule's state for g, the board shows Step(g) |
| Boards.Board.PrintedRows | board.py:87-93 | there is one printed row per grid row; each is the row's glyph string ('@' for an alive cell, '+' for a dead one), and reading it back gives that row of the snapshot |

## Left out

- `main.py` is not part of this model. It is terminal I/O: prompts, parsing of user text, screen clearing, sleeping, interrupt handling and the endless loop.
- Boards.Board.PrintedRows: the `print()` call of `print_board` (board.py:93) is output. The model returns the row texts instead of writing them.
- The dynamic type and arity checks are not modelled. They are `isinstance` on tuples, ints and strings, and the two-element test (board.py:37-42, cell.py:31-43, cell.py:49-50). Positions and sizes are typed `(int, int)` and states `string`, so those branches cannot be reached.
- `_check_position_validity` is therefore absent. With a typed position it never raises, and it has no sign check, so negative positions are accepted, as in the source.
- Cells.CaseFold: only ASCII letters are folded. Python's full Unicode `str.casefold` (for example 'ß' to "ss") is not modelled, because its folding tables are foreign data.
- `__repr__` and `__str__` (cell.py:25-29) are message formatting and are not modelled.
- The error values carry the offending text or fault kind, not the exact `ValueError` message strings.
- `get_grid` (board.py:60-62) returns the internal list itself. It is not modelled; `AccessCellDirectly` returns the cell reference, and callers are expected to treat it as read-only.
- Boards.Board.New: the source allocates the grid before it validates the size. With a non-positive side, `range` is empty, so the model clamps the grid sides with `max(0, side)`. The allocation is unobservable after a refusal.
- `Board.alive_symbol` and `Board.dead_symbol` are never reassigned. They are modelled as the constants `AliveSymbol` and `DeadSymbol`.
- The construction grid has `size[0]` rows of `size[1]` cells (board.py:25). The next generation's grid has `get_y_size()` rows of `get_x_size()` cells (board.py:97). Each is modelled as written; the two agree because a valid board is square.
- Cells.Cell.ChangeState: the argument-less form re-validates the stored state before flipping it (cell.py:76). That check cannot fail when the state is the two-valued `State`, so its refusal branch is not represented.
- The 2x2 block and the blinker are particular boards and are not proved; the all-dead and lone-cell consequences are proved for every board size.
- The model follows the code as written:
  - positions may be negative;
  - every refusal is one `ValueError`, and the model tells three kinds apart (an invalid state text, an invalid size, coordinates outside the board);
  - `change_cell` shifts by `max(0, c - 1)`, so 0 and 1 both reach index 0.
