/**
 * The Game of Life rule B3/S23 on a toroidal grid, stated on values.
 * A grid is a sequence of rows; row i, column j is g[i][j].  Reads wrap
 * around both edges, so every cell has exactly eight neighbours.
 */
module Torus {

  type Grid = seq<seq<bool>>

  /** g has exactly h rows of exactly w cells each. */
  predicate IsGrid(g: Grid, h: int, w: int) {
    |g| == h && forall i :: 0 <= i < |g| ==> |g[i]| == w
  }

  /** No cell of g is alive. */
  predicate IsDead(g: Grid) {
    forall i, j :: 0 <= i < |g| && 0 <= j < |g[i]| ==> !g[i][j]
  }

  /** The cell at (r, c) with wrap-around: row r mod h, column c mod w. */
  function Cell(g: Grid, h: int, w: int, r: int, c: int): bool
    requires 0 < h && 0 < w && IsGrid(g, h, w)
  {
    g[r % h][c % w]
  }

  function Count(b: bool): nat {
    if b then 1 else 0
  }

  /** The row offset of position p of the 3 x 3 scan: -1, 0 or 1 for p in [0, 3), [3, 6), [6, 9). */
  function ScanRow(p: nat): int {
    if p < 3 then -1 else if p < 6 then 0 else 1
  }

  /** The column offset of position p of the 3 x 3 scan: -1, 0, 1 within each row. */
  function ScanCol(p: nat): int {
    p - 3 * (ScanRow(p) + 1) - 1
  }

  /**
   * The alive cells among the first n positions of the 3 x 3 scan around
   * (r, c), taken row by row from offset (-1, -1) to (1, 1); the centre
   * (position 4, offset (0, 0)) is never counted.
   */
  function Scanned(g: Grid, h: int, w: int, r: int, c: int, n: nat): (k: nat)
    requires 0 < h && 0 < w && IsGrid(g, h, w) && n <= 9
    ensures k <= if n > 4 then n - 1 else n
    decreases n, g
  {
    if n == 0 then 0
    else
      var p := n - 1;
      Scanned(g, h, w, r, c, p) + Count(p != 4 && Cell(g, h, w, r + ScanRow(p), c + ScanCol(p)))
  }

  /** The number of alive cells among the eight neighbours of (r, c), in scan order. */
  function Neighbours(g: Grid, h: int, w: int, r: int, c: int): (k: nat)
    requires 0 < h && 0 < w && IsGrid(g, h, w)
    ensures k <= 8
  {
    Scanned(g, h, w, r, c, 9)
  }

  /** Whether (r, c) is alive in the next generation under B3/S23. */
  function NextState(g: Grid, h: int, w: int, r: int, c: int): (b: bool)
    requires 0 < h && 0 < w && IsGrid(g, h, w)
    // B3: a dead cell is born with exactly three alive neighbours
    ensures !Cell(g, h, w, r, c) ==> (b <==> Neighbours(g, h, w, r, c) == 3)
    // S23: an alive cell survives with two or three alive neighbours
    ensures Cell(g, h, w, r, c) ==> (b <==> Neighbours(g, h, w, r, c) in {2, 3})
  {
    var n := Neighbours(g, h, w, r, c);
    n == 3 || (n == 2 && Cell(g, h, w, r, c))
  }

  /** NextState applies B3/S23 to the count n of a complete scan (p == 9). */
  lemma RuleOfCount(g: Grid, h: int, w: int, r: int, c: int, p: nat, n: nat)
    requires 0 < h && 0 < w && IsGrid(g, h, w) && p == 9 && n == Scanned(g, h, w, r, c, p)
    ensures NextState(g, h, w, r, c) == (n == 3 || (n == 2 && Cell(g, h, w, r, c)))
  {
  }

  /** The next generation of the whole h x w grid. */
  function Step(g: Grid, h: nat, w: nat): (s: Grid)
    requires IsGrid(g, h, w)
    ensures IsGrid(s, h, w)
  {
    seq(h, i requires 0 <= i < h => seq(w, j requires 0 <= j < w => NextState(g, h, w, i, j)))
  }

  /** Cell (i, j) of the next grid is the next state of cell (i, j). */
  lemma StepCell(g: Grid, h: nat, w: nat, i: int, j: int)
    requires IsGrid(g, h, w) && 0 <= i < h && 0 <= j < w
    ensures Step(g, h, w)[i][j] == NextState(g, h, w, i, j)
  {
  }

  /** The generation n steps after g. */
  function Generations(g: Grid, h: nat, w: nat, n: nat): (s: Grid)
    requires IsGrid(g, h, w)
    ensures IsGrid(s, h, w)
  {
    if n == 0 then g else Step(Generations(g, h, w, n - 1), h, w)
  }

  /** The remainder of a by m is the r of any split a == q * m + r with 0 <= r < m. */
  lemma ModUnique(a: int, m: int, q: int, r: int)
    requires 0 < m && 0 <= r < m && a == q * m + r
    ensures a % m == r
  {
    var d := a / m - q;
    assert d * m == r - a % m;
  }

  /** Adding the modulus does not change the remainder. */
  lemma ModShift(a: int, m: int)
    requires 0 < m
    ensures (a + m) % m == a % m
  {
    ModUnique(a + m, m, a / m + 1, a % m);
  }

  /** A number already in [0, m) is its own remainder. */
  lemma ModInRange(a: int, m: int)
    requires 0 < m
    ensures 0 <= a < m ==> a % m == a
  {
    if 0 <= a < m {
      ModUnique(a, m, 0, a);
    }
  }

  /** Wrap-around reads are periodic in both directions, and exact inside the grid. */
  lemma CellPeriodic(g: Grid, h: int, w: int, r: int, c: int)
    requires 0 < h && 0 < w && IsGrid(g, h, w)
    ensures Cell(g, h, w, r, c) == Cell(g, h, w, r + h, c)
    ensures Cell(g, h, w, r, c) == Cell(g, h, w, r, c + w)
    ensures 0 <= r < h && 0 <= c < w ==> Cell(g, h, w, r, c) == g[r][c]
  {
    ModShift(r, h);
    ModShift(c, w);
    ModInRange(r, h);
    ModInRange(c, w);
  }

  /** One step of the scan: position 3 * (i + 1) + (j + 1) is the offset (i, j). */
  lemma ScanStep(g: Grid, h: int, w: int, r: int, c: int, i: int, j: int)
    requires 0 < h && 0 < w && IsGrid(g, h, w) && -1 <= i <= 1 && -1 <= j <= 1
    ensures Scanned(g, h, w, r, c, 3 * (i + 1) + (j + 1) + 1) ==
            Scanned(g, h, w, r, c, 3 * (i + 1) + (j + 1)) + Count((i != 0 || j != 0) && Cell(g, h, w, r + i, c + j))
  {
    var p := 3 * (i + 1) + (j + 1);
    assert ScanRow(p) == i && ScanCol(p) == j;
  }

  /** The neighbour count is the sum over the eight offsets around (r, c). */
  lemma NeighboursAreEightOffsets(g: Grid, h: int, w: int, r: int, c: int)
    requires 0 < h && 0 < w && IsGrid(g, h, w)
    ensures Neighbours(g, h, w, r, c) ==
      Count(Cell(g, h, w, r - 1, c - 1)) + Count(Cell(g, h, w, r - 1, c)) + Count(Cell(g, h, w, r - 1, c + 1)) +
      Count(Cell(g, h, w, r, c - 1))                                      + Count(Cell(g, h, w, r, c + 1)) +
      Count(Cell(g, h, w, r + 1, c - 1)) + Count(Cell(g, h, w, r + 1, c)) + Count(Cell(g, h, w, r + 1, c + 1))
  {
    ScanStep(g, h, w, r, c, -1, -1);
    ScanStep(g, h, w, r, c, -1, 0);
    ScanStep(g, h, w, r, c, -1, 1);
    ScanStep(g, h, w, r, c, 0, -1);
    ScanStep(g, h, w, r, c, 0, 0);
    ScanStep(g, h, w, r, c, 0, 1);
    ScanStep(g, h, w, r, c, 1, -1);
    ScanStep(g, h, w, r, c, 1, 0);
    ScanStep(g, h, w, r, c, 1, 1);
  }

  /** Every scan over a grid with no alive cell counts nothing. */
  lemma {:induction false} ScannedDead(g: Grid, h: int, w: int, r: int, c: int, n: nat)
    requires 0 < h && 0 < w && IsGrid(g, h, w) && IsDead(g) && n <= 9
    ensures Scanned(g, h, w, r, c, n) == 0
  {
    if n > 0 {
      ScannedDead(g, h, w, r, c, n - 1);
      var p := n - 1;
      var i, j := (r + ScanRow(p)) % h, (c + ScanCol(p)) % w;
      assert 0 <= i < h && 0 <= j < w;
    }
  }

  /** Step is determined cell by cell: a grid that agrees with NextState everywhere is the next generation. */
  lemma StepByCells(g: Grid, h: nat, w: nat, s: Grid)
    requires IsGrid(g, h, w) && IsGrid(s, h, w)
    requires forall i, j :: 0 <= i < h && 0 <= j < w ==> s[i][j] == NextState(g, h, w, i, j)
    ensures Step(g, h, w) == s
  {
    forall i | 0 <= i < h
      ensures Step(g, h, w)[i] == s[i]
    {
    }
  }

  /**
   * The next state of cell j of a row b of width w, from the row a above
   * it and the row c below it; columns wrap around.
   */
  function RowRule(a: seq<bool>, b: seq<bool>, c: seq<bool>, w: nat, j: int): bool
    requires |a| == w && |b| == w && |c| == w && 0 <= j < w
  {
    var l, t := (j - 1) % w, (j + 1) % w;
    var n := Count(a[l]) + Count(a[j]) + Count(a[t]) + Count(b[l]) + Count(b[t]) + Count(c[l]) + Count(c[j]) + Count(c[t]);
    n == 3 || (n == 2 && b[j])
  }

  /** The next state of every cell of row b, from the rows a above and c below it. */
  function RowNext(a: seq<bool>, b: seq<bool>, c: seq<bool>, w: nat): (s: seq<bool>)
    requires |a| == w && |b| == w && |c| == w
    ensures |s| == w
  {
    seq(w, j requires 0 <= j < w => RowRule(a, b, c, w, j))
  }

  /** The rule at (r, c) inside the grid, read from the neighbours at wrapped rows u, d and columns l, t. */
  lemma RuleAt(g: Grid, h: int, w: int, r: int, c: int, u: int, d: int, l: int, t: int)
    requires 0 < h && 0 < w && IsGrid(g, h, w) && 0 <= r < h && 0 <= c < w
    requires u == (r - 1) % h && d == (r + 1) % h && l == (c - 1) % w && t == (c + 1) % w
    ensures var n := Count(g[u][l]) + Count(g[u][c]) + Count(g[u][t]) + Count(g[r][l]) +
                     Count(g[r][t]) + Count(g[d][l]) + Count(g[d][c]) + Count(g[d][t]);
      NextState(g, h, w, r, c) == (n == 3 || (n == 2 && g[r][c]))
  {
    NeighboursAreEightOffsets(g, h, w, r, c);
    CellPeriodic(g, h, w, r, c);
    ModInRange(r, h);
    ModInRange(c, w);
  }

  /** Cell j of row i of the next generation, read from rows i - 1, i and i + 1. */
  lemma StepRowCell(g: Grid, h: nat, w: nat, i: int, j: int)
    requires 0 < h && 0 < w && IsGrid(g, h, w) && 0 <= i < h && 0 <= j < w
    ensures Step(g, h, w)[i][j] == RowNext(g[(i - 1) % h], g[i], g[(i + 1) % h], w)[j]
  {
    var u, d, l, t := (i - 1) % h, (i + 1) % h, (j - 1) % w, (j + 1) % w;
    RuleAt(g, h, w, i, j, u, d, l, t);
    var n := Count(g[u][l]) + Count(g[u][j]) + Count(g[u][t]) + Count(g[i][l]) +
             Count(g[i][t]) + Count(g[d][l]) + Count(g[d][j]) + Count(g[d][t]);
    calc {
      Step(g, h, w)[i][j];
      NextState(g, h, w, i, j);
      n == 3 || (n == 2 && g[i][j]);
      RowRule(g[u], g[i], g[d], w, j);
      RowNext(g[u], g[i], g[d], w)[j];
    }
  }

  /** Locality: row i of the next generation depends only on rows i - 1, i and i + 1, wrapped around. */
  lemma StepRow(g: Grid, h: nat, w: nat, i: int)
    requires 0 < h && 0 < w && IsGrid(g, h, w) && 0 <= i < h
    ensures Step(g, h, w)[i] == RowNext(g[(i - 1) % h], g[i], g[(i + 1) % h], w)
  {
    forall j | 0 <= j < w
      ensures Step(g, h, w)[i][j] == RowNext(g[(i - 1) % h], g[i], g[(i + 1) % h], w)[j]
    {
      StepRowCell(g, h, w, i, j);
    }
  }

  /** A cell with no alive neighbour is dead in the next generation. */
  lemma LonelyCellDies(g: Grid, h: int, w: int, r: int, c: int)
    requires 0 < h && 0 < w && IsGrid(g, h, w)
    requires Neighbours(g, h, w, r, c) == 0
    ensures !NextState(g, h, w, r, c)
  {
  }

  /** A grid with no alive cell is its own next generation. */
  lemma DeadStepsToDead(g: Grid, h: nat, w: nat)
    requires IsGrid(g, h, w) && IsDead(g)
    ensures Step(g, h, w) == g
  {
    forall i, j | 0 <= i < h && 0 <= j < w
      ensures g[i][j] == NextState(g, h, w, i, j)
    {
      ScannedDead(g, h, w, i, j, 9);
      LonelyCellDies(g, h, w, i, j);
    }
    StepByCells(g, h, w, g);
  }

  /** A grid with no alive cell stays so for any number of generations. */
  lemma {:induction false} DeadStaysDead(g: Grid, h: nat, w: nat, n: nat)
    requires IsGrid(g, h, w) && IsDead(g)
    ensures Generations(g, h, w, n) == g
  {
    if n > 0 {
      DeadStaysDead(g, h, w, n - 1);
      DeadStepsToDead(g, h, w);
    }
  }
}
