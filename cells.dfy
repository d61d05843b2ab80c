// Cells of a Minesweeper board and counting over a grid of them.
module Cells {

  /** The three states a cell can be in; Explored is terminal. */
  datatype CellState = Explored | Marked | Default

  /** A cell: `kind` is -1 for a mine, otherwise the number of adjacent mines
      (the source calls this field `type`); `state` is what the player did. */
  datatype Cell = Cell(kind: int, state: CellState)

  /** A board as a value: a sequence of rows. */
  type Grid = seq<seq<Cell>>

  predicate IsRect(g: Grid, rows: int, cols: int) {
    |g| == rows && forall r :: 0 <= r < |g| ==> |g[r]| == cols
  }

  predicate InBounds(g: Grid, r: int, c: int) {
    0 <= r < |g| && 0 <= c < |g[r]|
  }

  /** No cell of `g` is explored. */
  ghost predicate NoneExplored(g: Grid) {
    forall r, c :: InBounds(g, r, c) ==> g[r][c].state != Explored
  }

  /** Every mine of `g` is explored, as after a lost game. */
  ghost predicate MinesExplored(g: Grid) {
    forall r, c :: InBounds(g, r, c) && g[r][c].kind == -1 ==> g[r][c].state == Explored
  }

  /** `a` and `b` have the same shape and the same state in every cell. */
  ghost predicate SameStates(a: Grid, b: Grid) {
    |a| == |b| && (forall r :: 0 <= r < |a| ==> |a[r]| == |b[r]|) &&
    forall r, c :: InBounds(a, r, c) ==> a[r][c].state == b[r][c].state
  }

  /** The board a new game starts from: every cell of type 0 and untouched. */
  function Blank(rows: nat, cols: nat): (g: Grid)
    ensures IsRect(g, rows, cols)
  {
    seq(rows, r => seq(cols, c => Cell(0, Default)))
  }

  lemma SameStatesTrans(a: Grid, b: Grid, c: Grid)
    requires SameStates(a, b) && SameStates(b, c)
    ensures SameStates(a, c)
  {
    forall r, c' | InBounds(a, r, c') ensures a[r][c'].state == c[r][c'].state {
      assert InBounds(b, r, c');
    }
  }

  predicate IsMine(x: Cell) { x.kind == -1 }
  predicate IsSafe(x: Cell) { x.kind != -1 }
  predicate MarkedMine(x: Cell) { x.state == Marked && x.kind == -1 }
  predicate MarkedSafe(x: Cell) { x.state == Marked && x.kind != -1 }
  predicate ExploredSafe(x: Cell) { x.state == Explored && x.kind != -1 }
  predicate Unexplored(x: Cell) { x.state != Explored }

  function Ind(b: bool): nat { if b then 1 else 0 }

  /** Number of cells of `row` that satisfy `p`. */
  function CountRow(row: seq<Cell>, p: Cell -> bool): (n: nat)
    ensures n <= |row|
  {
    if row == [] then 0 else CountRow(row[..|row| - 1], p) + Ind(p(row[|row| - 1]))
  }

  /** Number of cells of `g` that satisfy `p`. */
  function CountGrid(g: Grid, p: Cell -> bool): nat
  {
    if g == [] then 0 else CountGrid(g[..|g| - 1], p) + CountRow(g[|g| - 1], p)
  }

  /** Number of cells in `g`. */
  function Size(g: Grid): nat
  {
    if g == [] then 0 else Size(g[..|g| - 1]) + |g[|g| - 1]|
  }

  lemma {:induction false} SizeRect(g: Grid, rows: nat, cols: nat)
    requires IsRect(g, rows, cols)
    ensures Size(g) == rows * cols
  {
    if rows > 0 {
      SizeRect(g[..rows - 1], rows - 1, cols);
      assert (rows - 1) * cols + cols == rows * cols;
    }
  }

  /** Replacing one cell changes a row's count by the difference of that cell's contributions. */
  lemma {:induction false} CountRowUpdate(row: seq<Cell>, c: int, x: Cell, p: Cell -> bool)
    requires 0 <= c < |row|
    ensures CountRow(row[c := x], p) == CountRow(row, p) - Ind(p(row[c])) + Ind(p(x))
  {
    var n := |row| - 1;
    if c < n {
      assert row[c := x][..n] == row[..n][c := x];
      CountRowUpdate(row[..n], c, x, p);
    } else {
      assert row[c := x][..n] == row[..n];
    }
  }

  /** Replacing one cell changes a grid's count by the difference of that cell's contributions. */
  lemma {:induction false} CountGridUpdate(g: Grid, r: int, c: int, x: Cell, p: Cell -> bool)
    requires InBounds(g, r, c)
    ensures CountGrid(g[r := g[r][c := x]], p) == CountGrid(g, p) - Ind(p(g[r][c])) + Ind(p(x))
  {
    var n := |g| - 1;
    var h := g[r := g[r][c := x]];
    if r < n {
      assert h[..n] == g[..n][r := g[r][c := x]];
      CountGridUpdate(g[..n], r, c, x, p);
    } else {
      assert h[..n] == g[..n];
      CountRowUpdate(g[r], c, x, p);
    }
  }

  /** If every cell of `b` satisfying `q` sits where `a` has a cell satisfying `p`,
      then `b` counts no more than `a`, and equal counts mean the implication
      runs both ways on every cell. */
  lemma {:induction false} CountRowMono(a: seq<Cell>, p: Cell -> bool, b: seq<Cell>, q: Cell -> bool)
    requires |a| == |b|
    requires forall i :: 0 <= i < |b| && q(b[i]) ==> p(a[i])
    ensures CountRow(b, q) <= CountRow(a, p)
    ensures CountRow(b, q) == CountRow(a, p) ==> forall i :: 0 <= i < |a| ==> (p(a[i]) <==> q(b[i]))
  {
    if a != [] {
      var n := |a| - 1;
      CountRowMono(a[..n], p, b[..n], q);
      assert forall i :: 0 <= i < n ==> a[..n][i] == a[i] && b[..n][i] == b[i];
    }
  }

  lemma {:induction false} CountGridMono(g: Grid, p: Cell -> bool, h: Grid, q: Cell -> bool)
    requires |g| == |h| && forall r :: 0 <= r < |g| ==> |g[r]| == |h[r]|
    requires forall r, c :: InBounds(h, r, c) && q(h[r][c]) ==> p(g[r][c])
    ensures CountGrid(h, q) <= CountGrid(g, p)
    ensures CountGrid(h, q) == CountGrid(g, p) ==>
      forall r, c :: InBounds(g, r, c) ==> (p(g[r][c]) <==> q(h[r][c]))
  {
    if g != [] {
      var n := |g| - 1;
      CountGridMono(g[..n], p, h[..n], q);
      CountRowMono(g[n], p, h[n], q);
      assert forall r :: 0 <= r < n ==> g[..n][r] == g[r] && h[..n][r] == h[r];
    }
  }

  /** Grids that agree cell by cell on `p` have the same count. */
  lemma CountGridAgree(g: Grid, h: Grid, p: Cell -> bool)
    requires |g| == |h| && forall r :: 0 <= r < |g| ==> |g[r]| == |h[r]|
    requires forall r, c :: InBounds(g, r, c) ==> p(g[r][c]) == p(h[r][c])
    ensures CountGrid(g, p) == CountGrid(h, p)
  {
    CountGridMono(g, p, h, p);
    CountGridMono(h, p, g, p);
  }

  lemma {:induction false} CountRowNone(row: seq<Cell>, p: Cell -> bool)
    ensures CountRow(row, p) == 0 <==> forall i :: 0 <= i < |row| ==> !p(row[i])
  {
    if row != [] {
      var n := |row| - 1;
      CountRowNone(row[..n], p);
      assert forall i :: 0 <= i < n ==> row[..n][i] == row[i];
    }
  }

  /** A count is zero exactly when no cell satisfies the predicate. */
  lemma {:induction false} CountGridNone(g: Grid, p: Cell -> bool)
    ensures CountGrid(g, p) == 0 <==> forall r, c :: InBounds(g, r, c) ==> !p(g[r][c])
  {
    if g != [] {
      var n := |g| - 1;
      CountGridNone(g[..n], p);
      CountRowNone(g[n], p);
      assert forall r :: 0 <= r < n ==> g[..n][r] == g[r];
    }
  }

  /** When every cell satisfies exactly one of `p` and `q`, the two counts add up to the size. */
  lemma {:induction false} CountGridSplit(g: Grid, p: Cell -> bool, q: Cell -> bool)
    requires forall r, c :: InBounds(g, r, c) ==> p(g[r][c]) != q(g[r][c])
    ensures CountGrid(g, p) + CountGrid(g, q) == Size(g)
  {
    if g != [] {
      var n := |g| - 1;
      assert forall r :: 0 <= r < n ==> g[..n][r] == g[r];
      CountGridSplit(g[..n], p, q);
      CountRowSplit(g[n], p, q);
    }
  }

  lemma {:induction false} CountRowSplit(row: seq<Cell>, p: Cell -> bool, q: Cell -> bool)
    requires forall i :: 0 <= i < |row| ==> p(row[i]) != q(row[i])
    ensures CountRow(row, p) + CountRow(row, q) == |row|
  {
    if row != [] {
      var n := |row| - 1;
      assert forall i :: 0 <= i < n ==> row[..n][i] == row[i];
      CountRowSplit(row[..n], p, q);
    }
  }

  /** Counting the first `r + 1` rows is counting the first `r` and then row `r`. */
  lemma CountGridPrefix(g: Grid, r: int, p: Cell -> bool)
    requires 0 <= r < |g|
    ensures CountGrid(g[..r + 1], p) == CountGrid(g[..r], p) + CountRow(g[r], p)
  {
    assert g[..r + 1][..r] == g[..r];
  }

  lemma CountRowPrefix(row: seq<Cell>, c: int, p: Cell -> bool)
    requires 0 <= c < |row|
    ensures CountRow(row[..c + 1], p) == CountRow(row[..c], p) + Ind(p(row[c]))
  {
    assert row[..c + 1][..c] == row[..c];
  }

  /** A blank board has nothing explored and nothing marked. */
  lemma BlankFacts(rows: nat, cols: nat)
    ensures NoneExplored(Blank(rows, cols))
    ensures CountGrid(Blank(rows, cols), MarkedMine) == 0 && CountGrid(Blank(rows, cols), MarkedSafe) == 0
  {
    CountGridNone(Blank(rows, cols), MarkedMine);
    CountGridNone(Blank(rows, cols), MarkedSafe);
  }
}
