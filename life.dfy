/**
 * The rules of the simulation as pure functions over a snapshot of the board:
 * a grid of states indexed g[y][x], the clipped 3x3 neighbour count, the
 * birth/survival rule and the next generation (board.py).
 */
module Life {
  import opened Cells

  /** A snapshot of the board: rows indexed by y, each row indexed by x. */
  type Grid = seq<seq<State>>

  /** The board is square: every row has as many cells as there are rows. */
  predicate IsSquare(g: Grid)
  {
    forall j :: 0 <= j < |g| ==> |g[j]| == |g|
  }

  function Max(a: int, b: int): int
  {
    if a >= b then a else b
  }

  function Min(a: int, b: int): int
  {
    if a <= b then a else b
  }

  /**
   * A half-open index range [lo, hi) that is either empty or lies inside
   * [0, n): Python's range(lo, hi) visits no index in the first case.
   */
  predicate InRange(lo: int, hi: int, n: int)
  {
    hi <= lo || (0 <= lo && hi <= n)
  }

  /** Whether cell (i, j) is a live cell other than the centre (x, y). */
  predicate CountsAt(g: Grid, i: int, j: int, x: int, y: int)
    requires IsSquare(g) && 0 <= i < |g| && 0 <= j < |g|
  {
    (i, j) != (x, y) && g[j][i] == Alive
  }

  /** Live cells of column i in rows [lo, hi), the centre excluded: the inner loop. */
  function ColumnCount(g: Grid, i: int, lo: int, hi: int, x: int, y: int): nat
    requires IsSquare(g) && InRange(lo, hi, |g|) && (lo < hi ==> 0 <= i < |g|)
    decreases hi - lo
  {
    if hi <= lo then 0
    else ColumnCount(g, i, lo, hi - 1, x, y) + (if CountsAt(g, i, hi - 1, x, y) then 1 else 0)
  }

  /** Live cells of columns [ilo, ihi) and rows [jlo, jhi), the centre excluded: the outer loop. */
  function WindowCount(g: Grid, ilo: int, ihi: int, jlo: int, jhi: int, x: int, y: int): nat
    requires IsSquare(g) && InRange(ilo, ihi, |g|) && InRange(jlo, jhi, |g|)
    decreases ihi - ilo
  {
    if ihi <= ilo then 0
    else WindowCount(g, ilo, ihi - 1, jlo, jhi, x, y) + ColumnCount(g, ihi - 1, jlo, jhi, x, y)
  }

  /** The window of count_live_neighbors along one axis: max(0, c-1) .. min(c+2, size). */
  function WindowLo(c: int): int
  {
    Max(0, c - 1)
  }

  function WindowHi(c: int, size: int): int
  {
    Min(c + 2, size)
  }

  /** The number count_live_neighbors(x, y) returns on snapshot g. */
  function Neighbours(g: Grid, x: int, y: int): nat
    requires IsSquare(g)
  {
    WindowCount(g, WindowLo(x), WindowHi(x, |g|), WindowLo(y), WindowHi(y, |g|), x, y)
  }

  /**
   * The independent reading of the count: the set of live cells (i, j) other
   * than (x, y) with max(0,x-1) <= i < min(x+2,size) and likewise for j.
   */
  function NeighbourSet(g: Grid, x: int, y: int): set<(int, int)>
    requires IsSquare(g)
  {
    set i, j | WindowLo(x) <= i < WindowHi(x, |g|) && WindowLo(y) <= j < WindowHi(y, |g|)
                 && CountsAt(g, i, j, x, y) :: (i, j)
  }

  function ColumnSet(g: Grid, i: int, lo: int, hi: int, x: int, y: int): set<(int, int)>
    requires IsSquare(g) && InRange(lo, hi, |g|) && (lo < hi ==> 0 <= i < |g|)
  {
    set j | lo <= j < hi && CountsAt(g, i, j, x, y) :: (i, j)
  }

  function WindowSet(g: Grid, ilo: int, ihi: int, jlo: int, jhi: int, x: int, y: int): set<(int, int)>
    requires IsSquare(g) && InRange(ilo, ihi, |g|) && InRange(jlo, jhi, |g|)
  {
    set i, j | ilo <= i < ihi && jlo <= j < jhi && CountsAt(g, i, j, x, y) :: (i, j)
  }

  lemma {:induction false} ColumnCountIsCardinality(g: Grid, i: int, lo: int, hi: int, x: int, y: int)
    requires IsSquare(g) && InRange(lo, hi, |g|) && (lo < hi ==> 0 <= i < |g|)
    ensures ColumnCount(g, i, lo, hi, x, y) == |ColumnSet(g, i, lo, hi, x, y)|
    decreases hi - lo
  {
    if hi <= lo {
      assert ColumnSet(g, i, lo, hi, x, y) == {};
    } else {
      ColumnCountIsCardinality(g, i, lo, hi - 1, x, y);
      var rest := ColumnSet(g, i, lo, hi - 1, x, y);
      assert (i, hi - 1) !in rest;
      if CountsAt(g, i, hi - 1, x, y) {
        assert ColumnSet(g, i, lo, hi, x, y) == rest + {(i, hi - 1)};
      } else {
        assert ColumnSet(g, i, lo, hi, x, y) == rest;
      }
    }
  }

  /** The window's cells split into those of its first columns and those of its last column. */
  lemma WindowSetSplit(g: Grid, ilo: int, ihi: int, jlo: int, jhi: int, x: int, y: int)
    requires IsSquare(g) && InRange(ilo, ihi, |g|) && InRange(jlo, jhi, |g|) && ilo < ihi
    ensures WindowSet(g, ilo, ihi, jlo, jhi, x, y)
            == WindowSet(g, ilo, ihi - 1, jlo, jhi, x, y) + ColumnSet(g, ihi - 1, jlo, jhi, x, y)
    ensures WindowSet(g, ilo, ihi - 1, jlo, jhi, x, y) * ColumnSet(g, ihi - 1, jlo, jhi, x, y) == {}
  {
    var rest := WindowSet(g, ilo, ihi - 1, jlo, jhi, x, y);
    var column := ColumnSet(g, ihi - 1, jlo, jhi, x, y);
    forall p | p in rest
      ensures p !in column
    {
      assert p.0 < ihi - 1;
    }
    forall i, j | ilo <= i < ihi && jlo <= j < jhi && CountsAt(g, i, j, x, y)
      ensures (i, j) in rest + column
    {
      if i < ihi - 1 {
        assert (i, j) in rest;
      } else {
        assert (i, j) in column;
      }
    }
  }

  lemma {:induction false} WindowCountIsCardinality(g: Grid, ilo: int, ihi: int, jlo: int, jhi: int, x: int, y: int)
    requires IsSquare(g) && InRange(ilo, ihi, |g|) && InRange(jlo, jhi, |g|)
    ensures WindowCount(g, ilo, ihi, jlo, jhi, x, y) == |WindowSet(g, ilo, ihi, jlo, jhi, x, y)|
    decreases ihi - ilo
  {
    if ihi <= ilo {
      assert WindowSet(g, ilo, ihi, jlo, jhi, x, y) == {};
    } else {
      WindowCountIsCardinality(g, ilo, ihi - 1, jlo, jhi, x, y);
      ColumnCountIsCardinality(g, ihi - 1, jlo, jhi, x, y);
      WindowSetSplit(g, ilo, ihi, jlo, jhi, x, y);
    }
  }

  /** count_live_neighbors counts exactly the live cells of the clipped window other than the centre. */
  lemma NeighboursIsCardinality(g: Grid, x: int, y: int)
    requires IsSquare(g)
    ensures Neighbours(g, x, y) == |NeighbourSet(g, x, y)|
  {
    WindowCountIsCardinality(g, WindowLo(x), WindowHi(x, |g|), WindowLo(y), WindowHi(y, |g|), x, y);
    assert NeighbourSet(g, x, y) == WindowSet(g, WindowLo(x), WindowHi(x, |g|), WindowLo(y), WindowHi(y, |g|), x, y);
  }

  /** A column of the window holds at most hi - lo counted cells, one fewer when the centre lies in it. */
  lemma {:induction false} ColumnCountBound(g: Grid, i: int, lo: int, hi: int, x: int, y: int)
    requires IsSquare(g) && InRange(lo, hi, |g|) && (lo < hi ==> 0 <= i < |g|)
    ensures ColumnCount(g, i, lo, hi, x, y) + (if i == x && lo <= y < hi then 1 else 0) <= Max(0, hi - lo)
    decreases hi - lo
  {
    if lo < hi {
      ColumnCountBound(g, i, lo, hi - 1, x, y);
    }
  }

  /**
   * With every column of the window at most h rows high, the window holds at
   * most width * h counted cells, one fewer when the centre lies in it.
   */
  lemma {:induction false} WindowCountBound(g: Grid, ilo: int, ihi: int, jlo: int, jhi: int, x: int, y: int, h: nat)
    requires IsSquare(g) && InRange(ilo, ihi, |g|) && InRange(jlo, jhi, |g|) && jhi - jlo <= h
    ensures WindowCount(g, ilo, ihi, jlo, jhi, x, y) + (if ilo <= x < ihi && jlo <= y < jhi then 1 else 0)
            <= Max(0, ihi - ilo) * h
    decreases ihi - ilo
  {
    if ilo < ihi {
      WindowCountBound(g, ilo, ihi - 1, jlo, jhi, x, y, h);
      ColumnCountBound(g, ihi - 1, jlo, jhi, x, y);
      assert Max(0, ihi - ilo) * h == Max(0, ihi - 1 - ilo) * h + h;
    }
  }

  /**
   * A cell has at most 8 live neighbours, and a corner cell at most 3: the
   * window is clipped at the border and never wraps to the opposite edge.
   */
  lemma NeighboursBound(g: Grid, x: int, y: int)
    requires IsSquare(g)
    ensures Neighbours(g, x, y) <= 8
    ensures (x == 0 || x == |g| - 1) && (y == 0 || y == |g| - 1) ==> Neighbours(g, x, y) <= 3
  {
    var ilo, ihi := WindowLo(x), WindowHi(x, |g|);
    var jlo, jhi := WindowLo(y), WindowHi(y, |g|);
    if (x == 0 || x == |g| - 1) && (y == 0 || y == |g| - 1) {
      WindowCountBound(g, ilo, ihi, jlo, jhi, x, y, 2);
    } else if jlo <= y < jhi {
      WindowCountBound(g, ilo, ihi, jlo, jhi, x, y, 3);
    } else {
      WindowCountBound(g, ilo, ihi, jlo, jhi, x, y, 1);
    }
  }

  /**
   * The rule applied to a cell in state s with n live neighbours: a live cell
   * with fewer than 2 or more than 3 dies, with 2 or 3 survives; a dead cell
   * with exactly 3 is born, otherwise stays dead.
   */
  function Rule(s: State, n: int): (r: State)
    ensures r == Alive <==> n == 3 || (s == Alive && n == 2)
  {
    if s == Alive then
      (if n < 2 || n > 3 then Dead else Alive)
    else
      (if n == 3 then Alive else Dead)
  }

  /** The next generation: every cell follows the rule on counts taken from g alone. */
  function Step(g: Grid): (h: Grid)
    requires IsSquare(g)
    ensures IsSquare(h) && |h| == |g|
    ensures forall y, x :: 0 <= y < |g| && 0 <= x < |g| ==> h[y][x] == Rule(g[y][x], Neighbours(g, x, y))
  {
    seq(|g|, y requires 0 <= y < |g| =>
      seq(|g|, x requires 0 <= x < |g| => Rule(g[y][x], Neighbours(g, x, y))))
  }

  predicate AllDead(g: Grid)
  {
    forall j, i :: 0 <= j < |g| && 0 <= i < |g[j]| ==> g[j][i] == Dead
  }

  /** An all-dead board stays all-dead. */
  lemma AllDeadStaysDead(g: Grid)
    requires IsSquare(g) && AllDead(g)
    ensures Step(g) == g
  {
    var h := Step(g);
    forall y | 0 <= y < |g|
      ensures h[y] == g[y]
    {
      forall x | 0 <= x < |g|
        ensures h[y][x] == g[y][x]
      {
        NeighboursIsCardinality(g, x, y);
        assert NeighbourSet(g, x, y) == {};
      }
    }
  }

  /** A board whose only live cell is (px, py) is all-dead one generation later. */
  lemma LoneCellDies(g: Grid, px: int, py: int)
    requires IsSquare(g) && 0 <= px < |g| && 0 <= py < |g|
    requires forall j, i :: 0 <= j < |g| && 0 <= i < |g| ==> (g[j][i] == Alive <==> (i, j) == (px, py))
    ensures AllDead(Step(g))
  {
    var h := Step(g);
    forall y, x | 0 <= y < |h| && 0 <= x < |h[y]|
      ensures h[y][x] == Dead
    {
      NeighboursIsCardinality(g, x, y);
      var s := NeighbourSet(g, x, y);
      assert s <= {(px, py)} - {(x, y)};
      if (x, y) == (px, py) {
        assert s == {};
      } else if (px, py) in s {
        assert s == {(px, py)};
      } else {
        assert s == {};
      }
    }
  }

  /** The glyphs print_board uses for a live and for a dead cell. */
  const AliveSymbol: char := '@'
  const DeadSymbol: char := '+'

  function Symbol(s: State): char
  {
    if s == Alive then AliveSymbol else DeadSymbol
  }

  /** The text print_board builds for one row, glyph by glyph from the left. */
  function RowString(row: seq<State>): (text: string)
    ensures |text| == |row|
    ensures forall i :: 0 <= i < |row| ==> text[i] == (if row[i] == Alive then '@' else '+')
  {
    if row == [] then "" else RowString(row[..|row| - 1]) + [Symbol(row[|row| - 1])]
  }

  /** Reads a printed row back. */
  function ReadRow(text: string): seq<State>
  {
    seq(|text|, i requires 0 <= i < |text| => if text[i] == AliveSymbol then Alive else Dead)
  }

  /** The two glyphs differ, so a printed row determines the row's states. */
  lemma RowStringRoundTrip(row: seq<State>)
    ensures ReadRow(RowString(row)) == row
  {
  }
}
