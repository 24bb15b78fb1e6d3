/** The toroidal automaton as values: the board, the periodic coordinate
    arithmetic of Grid::getPeriodicIndex, the 3x3 sum and the compressed life
    rule of Grid::checkCell, and one whole generation as GameOfLife::runStep
    computes it. The classes of module Game are proved against these. */
module Torus {

  /** A (row, col) coordinate into one particular board. */
  datatype Index = Index(row: nat, col: nat)

  /** Cell states, row-major and zero-based: b[row][col] is true when alive. */
  type Board = seq<seq<bool>>

  /** b has `rows` rows of `columns` cells each. */
  predicate Rectangular(b: Board, rows: nat, columns: nat)
  {
    |b| == rows && forall i :: 0 <= i < |b| ==> |b[i]| == columns
  }

  /** A board a Grid can hold: both dimensions positive, all rows equally long. */
  predicate WellFormed(b: Board)
  {
    |b| > 0 && |b[0]| > 0 && Rectangular(b, |b|, |b[0]|)
  }

  predicate InRange(b: Board, ind: Index)
    requires WellFormed(b)
  {
    ind.row < |b| && ind.col < |b[0]|
  }

  /** The board of a freshly constructed Grid: every cell dead. */
  function Dead(rows: nat, columns: nat): (b: Board)
    ensures Rectangular(b, rows, columns)
    ensures forall i, j :: 0 <= i < rows && 0 <= j < columns ==> !b[i][j]
  {
    seq(rows, _ => seq(columns, _ => false))
  }

  /** b with the one cell at ind set to value. */
  function Updated(b: Board, ind: Index, value: bool): (r: Board)
    requires WellFormed(b) && InRange(b, ind)
    ensures WellFormed(r) && Rectangular(r, |b|, |b[0]|)
    ensures r[ind.row][ind.col] == value
    ensures forall i, j :: 0 <= i < |b| && 0 <= j < |b[0]| && (i != ind.row || j != ind.col) ==>
              r[i][j] == b[i][j]
  {
    b[ind.row := b[ind.row][ind.col := value]]
  }

  /** b with the cell at ind negated, as a click does it. */
  function Toggled(b: Board, ind: Index): (r: Board)
    requires WellFormed(b) && InRange(b, ind)
    ensures WellFormed(r) && Rectangular(r, |b|, |b[0]|)
    ensures r[ind.row][ind.col] == !b[ind.row][ind.col]
    ensures forall i, j :: 0 <= i < |b| && 0 <= j < |b[0]| && (i != ind.row || j != ind.col) ==>
              r[i][j] == b[i][j]
  {
    Updated(b, ind, !b[ind.row][ind.col])
  }

  /** Toggling changes exactly the target cell, and toggling it again restores the board. */
  lemma ToggledTwice(b: Board, ind: Index)
    requires WellFormed(b) && InRange(b, ind)
    ensures Toggled(b, ind)[ind.row][ind.col] == !b[ind.row][ind.col]
    ensures forall i, j :: 0 <= i < |b| && 0 <= j < |b[0]| && (i != ind.row || j != ind.col) ==>
              Toggled(b, ind)[i][j] == b[i][j]
    ensures Toggled(Toggled(b, ind), ind) == b
  {
    var t := Toggled(Toggled(b, ind), ind);
    assert |t| == |b|;
    forall i | 0 <= i < |b|
      ensures t[i] == b[i]
    {
      assert |t[i]| == |b[i]|;
    }
  }

  // ---------------------------------------------------------------------------
  // Periodic coordinates
  // ---------------------------------------------------------------------------

  /** One coordinate of Grid::getPeriodicIndex as game_of_life computes it: a
      negative v becomes n - (-v) % n, which lies in [1, n], and the final
      % n folds every value, n included, onto [0, n). The result is the
      Euclidean remainder of v, however far below zero v lies. */
  function Wrap(v: int, n: nat): (r: nat)
    requires n > 0
    ensures r < n
    ensures r == v % n
  {
    var folded := if v < 0 then n - (-v) % n else v;
    assert v < 0 ==> folded % n == v % n by {
      if v < 0 {
        var q, m := (-v) / n, (-v) % n;
        if m == 0 {
          ModOfMultiple(v, -q, n);
        } else {
          ModUnique(v, -q - 1, n - m, n);
        }
        ModUnique(folded, if m == 0 then 1 else 0, if m == 0 then 0 else n - m, n);
      }
    }
    folded % n
  }

  /** x = q * n + r with 0 <= r < n determines the Euclidean remainder. */
  lemma ModUnique(x: int, q: int, r: int, n: int)
    requires 0 <= r < n && x == q * n + r
    ensures x % n == r
  {
    var q', r' := x / n, x % n;
    assert (q - q') * n == r' - r;
    if q' < q {
      MulMonotone(q - q', n);
    } else if q < q' {
      MulMonotone(q' - q, n);
    }
  }

  lemma ModOfMultiple(x: int, q: int, n: int)
    requires 0 < n && x == q * n
    ensures x % n == 0
  {
    ModUnique(x, q, 0, n);
  }

  lemma MulMonotone(k: int, n: int)
    requires k >= 1 && n > 0
    ensures k * n >= n
  {
  }

  /** Grid::getPeriodicIndex for a rows x columns grid. */
  function PeriodicIndex(rows: nat, columns: nat, row: int, col: int): (r: Index)
    requires rows > 0 && columns > 0
    ensures r.row < rows && r.col < columns
    ensures 0 <= row < rows ==> r.row == row
    ensures 0 <= col < columns ==> r.col == col
  {
    assert 0 <= row < rows ==> Wrap(row, rows) == row by {
      if 0 <= row < rows { WrapIdentity(row, rows); }
    }
    assert 0 <= col < columns ==> Wrap(col, columns) == col by {
      if 0 <= col < columns { WrapIdentity(col, columns); }
    }
    Index(Wrap(row, rows), Wrap(col, columns))
  }

  /** Coordinates already in range are returned unchanged. */
  lemma WrapIdentity(v: int, n: nat)
    requires 0 <= v < n
    ensures Wrap(v, n) == v
  {
    ModUnique(v, 0, v, n);
  }

  /** Shifting a coordinate by whole periods does not move the wrapped cell. */
  lemma {:induction false} WrapPeriodic(v: int, k: int, n: nat)
    requires n > 0
    ensures Wrap(v + k * n, n) == Wrap(v, n)
  {
    var q, m := v / n, v % n;
    ModUnique(v + k * n, q + k, m, n);
  }

  /** The values game_of_life's grid test checks on a 4 x 5 grid, two and more periods
      below zero included. */
  lemma PeriodicIndexExamples()
    ensures PeriodicIndex(4, 5, 2, 4) == Index(2, 4)
    ensures PeriodicIndex(4, 5, 0, 0) == Index(0, 0)
    ensures PeriodicIndex(4, 5, 5, 7) == Index(1, 2)
    ensures PeriodicIndex(4, 5, -3, -4) == Index(1, 1)
    ensures PeriodicIndex(4, 5, -20, -11) == Index(0, 4)
  {
  }

  /** A negative multiple of n: the negative branch yields n itself, which the
      final remainder folds onto 0. */
  lemma WrapNegativeMultiple(k: nat, n: nat)
    requires n > 0 && k > 0
    ensures n - (k * n) % n == n
    ensures Wrap(-(k * n), n) == 0
  {
    ModOfMultiple(k * n, k, n);
    ModOfMultiple(-(k * n), -(k as int), n);
  }

  /** The neighbour offsets -1 and n: one period below and above. */
  lemma WrapAdjacent(v: int, n: nat)
    requires n > 0 && -1 <= v <= n
    ensures Wrap(v, n) == if v == -1 then n - 1 else if v == n then 0 else v
  {
    if v == -1 {
      ModUnique(v, -1, n - 1, n);
    } else if v == n {
      ModUnique(v, 1, 0, n);
    }
  }

  // ---------------------------------------------------------------------------
  // The neighbourhood sum, in the order Grid::checkCell visits it
  // ---------------------------------------------------------------------------

  /** 1 when the cell at p is alive, else 0: what `sum += cell.data` adds. */
  function Alive(b: Board, p: Index): nat
    requires WellFormed(b) && InRange(b, p)
  {
    if b[p.row][p.col] then 1 else 0
  }

  /** Alive at the wrapped coordinate (i, j). */
  function CellValue(b: Board, i: int, j: int): (v: nat)
    requires WellFormed(b)
    ensures v <= 1
    ensures 0 <= i < |b| && 0 <= j < |b[0]| ==> (v == 1 <==> b[i][j])
  {
    Alive(b, PeriodicIndex(|b|, |b[0]|, i, j))
  }

  /** Sum of CellValue(b, i, j) for lo <= j < hi: one pass of the inner loop. */
  function RowSum(b: Board, i: int, lo: int, hi: int): (s: nat)
    requires WellFormed(b)
    ensures lo <= hi ==> s <= hi - lo
    ensures hi <= lo ==> s == 0
    decreases hi - lo
  {
    if hi <= lo then 0 else RowSum(b, i, lo, hi - 1) + CellValue(b, i, hi - 1)
  }

  /** Sum of RowSum(b, i, jlo, jhi) for ilo <= i < ihi: the outer loop. */
  function BlockSum(b: Board, ilo: int, ihi: int, jlo: int, jhi: int): (s: nat)
    requires WellFormed(b)
    ensures ilo <= ihi && jlo <= jhi ==> s <= (ihi - ilo) * (jhi - jlo)
    decreases ihi - ilo
  {
    if ihi <= ilo then 0
    else
      var s := BlockSum(b, ilo, ihi - 1, jlo, jhi) + RowSum(b, ihi - 1, jlo, jhi);
      assert ilo <= ihi && jlo <= jhi ==> s <= (ihi - ilo) * (jhi - jlo) by {
        if ilo <= ihi && jlo <= jhi {
          assert (ihi - 1 - ilo) * (jhi - jlo) + (jhi - jlo) == (ihi - ilo) * (jhi - jlo);
        }
      }
      s
  }

  /** The 3x3 block centred on (row, col), centre included, wrapped. */
  function NeighbourhoodSum(b: Board, row: nat, col: nat): (s: nat)
    requires WellFormed(b)
    ensures s <= 9
  {
    BlockSum(b, row - 1, row + 2, col - 1, col + 2)
  }

  /** Grid::checkCell: alive on a sum of 3, unchanged on 4, dead otherwise. */
  function Next(b: Board, row: nat, col: nat): (alive: bool)
    requires WellFormed(b) && row < |b| && col < |b[0]|
    ensures NeighbourhoodSum(b, row, col) == 3 ==> alive
    ensures NeighbourhoodSum(b, row, col) == 4 ==> alive == b[row][col]
    ensures alive ==> NeighbourhoodSum(b, row, col) == 3 || NeighbourhoodSum(b, row, col) == 4
  {
    var sum := NeighbourhoodSum(b, row, col);
    if sum == 3 then true else if sum == 4 then b[row][col] else false
  }

  /** One generation: every cell of the next board is Next of the current one. */
  function Step(b: Board): (r: Board)
    requires WellFormed(b)
    ensures WellFormed(r) && Rectangular(r, |b|, |b[0]|)
  {
    seq(|b|, i requires 0 <= i < |b| =>
      seq(|b[0]|, j requires 0 <= j < |b[0]| => Next(b, i, j)))
  }

  lemma StepAt(b: Board, i: nat, j: nat)
    requires WellFormed(b) && i < |b| && j < |b[0]|
    ensures Step(b)[i][j] == Next(b, i, j)
  {
  }

  // ---------------------------------------------------------------------------
  // An independent reference: the nine cells listed one by one
  // ---------------------------------------------------------------------------

  /** The nine wrapped positions of the 3x3 block, row by row; the centre is [4]. */
  function Window(rows: nat, columns: nat, row: int, col: int): (w: seq<Index>)
    requires rows > 0 && columns > 0
    ensures |w| == 9
  {
    seq(9, k requires 0 <= k < 9 => PeriodicIndex(rows, columns, row - 1 + k / 3, col - 1 + k % 3))
  }

  /** The eight Moore neighbours: the window without its centre. */
  function Neighbours(rows: nat, columns: nat, row: int, col: int): (ns: seq<Index>)
    requires rows > 0 && columns > 0
    ensures |ns| == 8
  {
    var w := Window(rows, columns, row, col);
    w[..4] + w[5..]
  }

  predicate AllInRange(b: Board, ps: seq<Index>)
    requires WellFormed(b)
  {
    forall k :: 0 <= k < |ps| ==> InRange(b, ps[k])
  }

  /** How many of the listed positions hold a live cell, counted with repetition. */
  function CountAlive(b: Board, ps: seq<Index>): (n: nat)
    requires WellFormed(b) && AllInRange(b, ps)
    ensures n <= |ps|
  {
    if ps == [] then 0 else CountAlive(b, ps[..|ps| - 1]) + Alive(b, ps[|ps| - 1])
  }

  /** Standard Game of Life, B3/S23: a dead cell with exactly three live
      neighbours is born, a live cell with two or three survives. */
  predicate ClassicRule(alive: bool, liveNeighbours: nat)
  {
    if alive then liveNeighbours == 2 || liveNeighbours == 3 else liveNeighbours == 3
  }

  lemma {:induction false} CountAliveAppend(b: Board, ps: seq<Index>, qs: seq<Index>)
    requires WellFormed(b) && AllInRange(b, ps) && AllInRange(b, qs)
    ensures AllInRange(b, ps + qs)
    ensures CountAlive(b, ps + qs) == CountAlive(b, ps) + CountAlive(b, qs)
    decreases |qs|
  {
    if qs == [] {
      assert ps + qs == ps;
    } else {
      var init := qs[..|qs| - 1];
      CountAliveAppend(b, ps, init);
      assert (ps + qs)[..|ps + qs| - 1] == ps + init;
    }
  }

  lemma CountAliveThree(b: Board, p: Index, q: Index, r: Index)
    requires WellFormed(b) && InRange(b, p) && InRange(b, q) && InRange(b, r)
    ensures AllInRange(b, [p, q, r])
    ensures CountAlive(b, [p, q, r]) == Alive(b, p) + Alive(b, q) + Alive(b, r)
  {
    assert [p, q, r][..2] == [p, q];
    assert [p, q][..1] == [p];
    assert [p][..0] == [];
    assert CountAlive(b, [p]) == Alive(b, p);
    assert CountAlive(b, [p, q]) == Alive(b, p) + Alive(b, q);
  }

  /** One pass of the inner loop adds the three wrapped cells of row i. */
  lemma RowSumThree(b: Board, i: int, col: int)
    requires WellFormed(b)
    ensures RowSum(b, i, col - 1, col + 2)
         == CellValue(b, i, col - 1) + CellValue(b, i, col) + CellValue(b, i, col + 1)
  {
    assert RowSum(b, i, col - 1, col + 2) == RowSum(b, i, col - 1, col + 1) + CellValue(b, i, col + 1);
    assert RowSum(b, i, col - 1, col + 1) == RowSum(b, i, col - 1, col) + CellValue(b, i, col);
    assert RowSum(b, i, col - 1, col) == RowSum(b, i, col - 1, col - 1) + CellValue(b, i, col - 1);
  }

  /** The sum Grid::checkCell accumulates is the nine wrapped cells
      (row-1..row+1) x (col-1..col+1), each added once. */
  lemma NeighbourhoodSumNine(b: Board, row: nat, col: nat)
    requires WellFormed(b)
    ensures NeighbourhoodSum(b, row, col)
         == CellValue(b, row - 1, col - 1) + CellValue(b, row - 1, col) + CellValue(b, row - 1, col + 1)
          + CellValue(b, row, col - 1) + CellValue(b, row, col) + CellValue(b, row, col + 1)
          + CellValue(b, row + 1, col - 1) + CellValue(b, row + 1, col) + CellValue(b, row + 1, col + 1)
  {
    RowSumThree(b, row - 1, col);
    RowSumThree(b, row, col);
    RowSumThree(b, row + 1, col);
    NeighbourhoodSumRows(b, row, col);
  }

  /** The outer loop's three passes, one per wrapped row. */
  lemma NeighbourhoodSumRows(b: Board, row: nat, col: nat)
    requires WellFormed(b)
    ensures NeighbourhoodSum(b, row, col)
         == RowSum(b, row - 1, col - 1, col + 2) + RowSum(b, row, col - 1, col + 2)
          + RowSum(b, row + 1, col - 1, col + 2)
  {
    var lo := row - 1;
    assert BlockSum(b, lo, lo + 3, col - 1, col + 2)
        == BlockSum(b, lo, lo + 2, col - 1, col + 2) + RowSum(b, lo + 2, col - 1, col + 2);
    assert BlockSum(b, lo, lo + 2, col - 1, col + 2)
        == BlockSum(b, lo, lo + 1, col - 1, col + 2) + RowSum(b, lo + 1, col - 1, col + 2);
    assert BlockSum(b, lo, lo + 1, col - 1, col + 2)
        == BlockSum(b, lo, lo, col - 1, col + 2) + RowSum(b, lo, col - 1, col + 2);
  }

  /** The live count over nine positions, spelled out entry by entry. */
  lemma CountAliveNine(b: Board, w: seq<Index>)
    requires WellFormed(b) && |w| == 9 && AllInRange(b, w)
    ensures CountAlive(b, w)
         == Alive(b, w[0]) + Alive(b, w[1]) + Alive(b, w[2])
          + Alive(b, w[3]) + Alive(b, w[4]) + Alive(b, w[5])
          + Alive(b, w[6]) + Alive(b, w[7]) + Alive(b, w[8])
  {
    var top, mid, bottom := w[..3], w[3..6], w[6..];
    assert w == top + mid + bottom;
    assert top == [w[0], w[1], w[2]];
    assert mid == [w[3], w[4], w[5]];
    assert bottom == [w[6], w[7], w[8]];
    CountAliveThree(b, w[0], w[1], w[2]);
    CountAliveThree(b, w[3], w[4], w[5]);
    CountAliveThree(b, w[6], w[7], w[8]);
    CountAliveAppend(b, top, mid);
    CountAliveAppend(b, top + mid, bottom);
  }

  /** The sum Grid::checkCell accumulates counts exactly the nine cells of the
      window, each once, centre included. */
  lemma NeighbourhoodSumIsWindow(b: Board, row: nat, col: nat)
    requires WellFormed(b)
    ensures AllInRange(b, Window(|b|, |b[0]|, row, col))
    ensures NeighbourhoodSum(b, row, col) == CountAlive(b, Window(|b|, |b[0]|, row, col))
  {
    var w := Window(|b|, |b[0]|, row, col);
    assert AllInRange(b, w);
    CountAliveNine(b, w);
    NeighbourhoodSumNine(b, row, col);
    assert Alive(b, w[0]) == CellValue(b, row - 1, col - 1);
    assert Alive(b, w[1]) == CellValue(b, row - 1, col);
    assert Alive(b, w[2]) == CellValue(b, row - 1, col + 1);
    assert Alive(b, w[3]) == CellValue(b, row, col - 1);
    assert Alive(b, w[4]) == CellValue(b, row, col);
    assert Alive(b, w[5]) == CellValue(b, row, col + 1);
    assert Alive(b, w[6]) == CellValue(b, row + 1, col - 1);
    assert Alive(b, w[7]) == CellValue(b, row + 1, col);
    assert Alive(b, w[8]) == CellValue(b, row + 1, col + 1);
  }

  /** Two coordinates at most one step away from an in-range v coincide after
      wrapping only when they are equal, provided the period is at least 3. */
  lemma WrapNearInjective(v: nat, a: int, a': int, n: nat)
    requires 3 <= n && v < n
    requires -1 <= a <= 1 && -1 <= a' <= 1
    requires Wrap(v + a, n) == Wrap(v + a', n)
    ensures a == a'
  {
    WrapAdjacent(v + a, n);
    WrapAdjacent(v + a', n);
  }

  /** On a torus of at least 3 x 3 the window holds nine distinct cells, its
      centre is the cell itself, so the eight neighbours are eight distinct
      cells other than it. */
  lemma {:induction false} WindowDistinct(rows: nat, columns: nat, row: nat, col: nat)
    requires 3 <= rows && 3 <= columns && row < rows && col < columns
    ensures Window(rows, columns, row, col)[4] == Index(row, col)
    ensures forall k, l :: 0 <= k < l < 9 ==>
              Window(rows, columns, row, col)[k] != Window(rows, columns, row, col)[l]
    ensures forall k :: 0 <= k < 8 ==> Neighbours(rows, columns, row, col)[k] != Index(row, col)
    ensures forall k, l :: 0 <= k < l < 8 ==>
              Neighbours(rows, columns, row, col)[k] != Neighbours(rows, columns, row, col)[l]
  {
    var w := Window(rows, columns, row, col);
    WrapIdentity(row, rows);
    WrapIdentity(col, columns);
    forall k, l | 0 <= k < l < 9
      ensures w[k] != w[l]
    {
      if w[k] == w[l] {
        WrapNearInjective(row, k / 3 - 1, l / 3 - 1, rows);
        WrapNearInjective(col, k % 3 - 1, l % 3 - 1, columns);
        assert false;
      }
    }
    var ns := Neighbours(rows, columns, row, col);
    assert forall k :: 0 <= k < 8 ==> ns[k] == w[if k < 4 then k else k + 1];
  }

  /** Grid::checkCell's compressed rule is the standard B3/S23 rule applied to
      the eight neighbours (the 3x3 sum minus the cell's own state). */
  lemma NextIsClassicRule(b: Board, row: nat, col: nat)
    requires WellFormed(b) && row < |b| && col < |b[0]|
    ensures AllInRange(b, Neighbours(|b|, |b[0]|, row, col))
    ensures Next(b, row, col) == ClassicRule(b[row][col], CountAlive(b, Neighbours(|b|, |b[0]|, row, col)))
  {
    var w := Window(|b|, |b[0]|, row, col);
    NeighbourhoodSumIsWindow(b, row, col);
    WrapIdentity(row, |b|);
    WrapIdentity(col, |b[0]|);
    assert w[4] == Index(row, col);
    var before, after := w[..4], w[5..];
    assert w == before + [w[4]] + after;
    assert CountAlive(b, [w[4]]) == Alive(b, w[4]) by {
      assert [w[4]][..0] == [];
    }
    CountAliveAppend(b, before, [w[4]]);
    CountAliveAppend(b, before + [w[4]], after);
    CountAliveAppend(b, before, after);
  }

  // ---------------------------------------------------------------------------
  // Whole generations
  // ---------------------------------------------------------------------------

  lemma {:induction false} RowSumDead(rows: nat, columns: nat, i: int, lo: int, hi: int)
    requires rows > 0 && columns > 0
    ensures RowSum(Dead(rows, columns), i, lo, hi) == 0
    decreases hi - lo
  {
    if lo < hi {
      RowSumDead(rows, columns, i, lo, hi - 1);
    }
  }

  lemma {:induction false} BlockSumDead(rows: nat, columns: nat, ilo: int, ihi: int, jlo: int, jhi: int)
    requires rows > 0 && columns > 0
    ensures BlockSum(Dead(rows, columns), ilo, ihi, jlo, jhi) == 0
    decreases ihi - ilo
  {
    if ilo < ihi {
      BlockSumDead(rows, columns, ilo, ihi - 1, jlo, jhi);
      RowSumDead(rows, columns, ihi - 1, jlo, jhi);
    }
  }

  /** An all-dead board stays all dead: every cell's sum is 0. */
  lemma StepDead(rows: nat, columns: nat)
    requires rows > 0 && columns > 0
    ensures forall i, j :: 0 <= i < rows && 0 <= j < columns ==> !Next(Dead(rows, columns), i, j)
    ensures Step(Dead(rows, columns)) == Dead(rows, columns)
  {
    var d := Dead(rows, columns);
    forall i, j | 0 <= i < rows && 0 <= j < columns
      ensures !Next(d, i, j)
    {
      BlockSumDead(rows, columns, i - 1, i + 2, j - 1, j + 2);
    }
    var s := Step(d);
    forall i | 0 <= i < rows
      ensures s[i] == d[i]
    {
      assert |s[i]| == |d[i]|;
    }
  }

  /** A 4 x 4 torus holding a 2 x 2 block in its middle. */
  function BlockBoard(): (b: Board)
    ensures WellFormed(b) && Rectangular(b, 4, 4)
  {
    seq(4, i => seq(4, j => 1 <= i <= 2 && 1 <= j <= 2))
  }

  lemma BlockCellValue(i: int, j: int)
    requires -1 <= i <= 4 && -1 <= j <= 4
    ensures CellValue(BlockBoard(), i, j) == if 1 <= i <= 2 && 1 <= j <= 2 then 1 else 0
  {
    WrapAdjacent(i, 4);
    WrapAdjacent(j, 4);
  }

  /** How many of the three wrapped coordinates k-1, k, k+1 fall in the block's span 1..2. */
  function BlockSpan(k: nat): nat
  {
    if 1 <= k <= 2 then 2 else 1
  }

  /** The 3x3 sum on the block board: two rows of the block meet the window
      inside the block's row span, one row outside it. */
  lemma BlockNeighbourhood(i: nat, j: nat)
    requires i < 4 && j < 4
    ensures NeighbourhoodSum(BlockBoard(), i, j) == if 1 <= i <= 2 then 2 * BlockSpan(j) else BlockSpan(j)
  {
    NeighbourhoodSumRows(BlockBoard(), i, j);
    BlockRow(i - 1, j);
    BlockRow(i, j);
    BlockRow(i + 1, j);
  }

  /** One pass of the inner loop over the block board: the block's share of row r. */
  lemma BlockRow(r: int, j: nat)
    requires -1 <= r <= 4 && j < 4
    ensures RowSum(BlockBoard(), r, j - 1, j + 2) == if 1 <= r <= 2 then BlockSpan(j) else 0
  {
    RowSumThree(BlockBoard(), r, j);
    BlockCellValue(r, j - 1);
    BlockCellValue(r, j);
    BlockCellValue(r, j + 1);
  }

  lemma BlockCell(i: nat, j: nat)
    requires i < 4 && j < 4
    ensures Next(BlockBoard(), i, j) == BlockBoard()[i][j]
  {
    BlockNeighbourhood(i, j);
  }

  /** The block is a still life: one generation leaves the board unchanged. */
  lemma BlockIsStillLife()
    ensures Step(BlockBoard()) == BlockBoard()
  {
    var b := BlockBoard();
    var s := Step(b);
    forall i | 0 <= i < 4
      ensures s[i] == b[i]
    {
      forall j | 0 <= j < 4
        ensures s[i][j] == b[i][j]
      {
        BlockCell(i, j);
      }
    }
  }
}
