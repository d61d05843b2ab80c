// Mine layouts: where the mines go and the neighbour counts every other cell carries.
module Layout {
  import opened Cells

  function Max(a: int, b: int): int { if a < b then b else a }
  function Min(a: int, b: int): int { if a < b then a else b }

  predicate Distinct(s: seq<int>) {
    forall i, j :: 0 <= i < j < |s| ==> s[i] != s[j]
  }

  /** A layout is `numMines` distinct flat positions of a rows x cols board,
      as the shuffled-and-taken range of `0 until rows * cols` yields. */
  predicate IsLayout(mines: seq<int>, rows: int, cols: int, numMines: int) {
    |mines| == numMines && Distinct(mines) &&
    forall i :: 0 <= i < |mines| ==> 0 <= mines[i] < rows * cols
  }

  /** Row and column of a flat position, row-major. */
  function Decompose(pos: int, cols: int): (rc: (int, int))
    requires cols > 0
  {
    (pos / cols, pos % cols)
  }

  /** The decomposition the source writes: the row divides by the row count. */
  function SourceDecompose(pos: int, rows: int, cols: int): (rc: (int, int))
    requires rows > 0 && cols > 0
  {
    (pos / rows, pos % cols)
  }

  /** On a 2-row, 3-column board the source's decomposition sends position 4 to row 2, outside the board. */
  lemma SourceDecomposeLeavesBoard()
    ensures 0 <= 4 < 2 * 3
    ensures SourceDecompose(4, 2, 3).0 >= 2
  {
  }

  /** On a 3-row, 2-column board it sends the distinct positions 0 and 2 to the same cell. */
  lemma SourceDecomposeCollides()
    ensures SourceDecompose(0, 3, 2) == SourceDecompose(2, 3, 2) == (0, 0)
  {
  }

  /** On a square board the source's decomposition is the intended one. */
  lemma SourceDecomposeSquare(pos: int, n: int)
    requires n > 0
    ensures SourceDecompose(pos, n, n) == Decompose(pos, n)
  {
  }

  lemma MulLess(a: int, b: int, k: int)
    requires k > 0 && a * k < b * k
    ensures a < b
  {
    assert (b - a) * k > 0;
  }

  lemma FlatUnique(r: int, c: int, cols: int)
    requires 0 <= c < cols
    ensures (r * cols + c) / cols == r && (r * cols + c) % cols == c
  {
    var q, m := (r * cols + c) / cols, (r * cols + c) % cols;
    assert q * cols + m == r * cols + c;
    assert 0 <= m < cols;
    MulLess(q, r + 1, cols);
    MulLess(r, q + 1, cols);
  }

  /** Decompose maps the positions of a rows x cols board one-to-one onto its cells. */
  lemma {:induction false} DecomposeBijective(pos: int, rows: int, cols: int)
    requires 0 <= pos < rows * cols && rows >= 0
    ensures cols > 0
    ensures 0 <= Decompose(pos, cols).0 < rows && 0 <= Decompose(pos, cols).1 < cols
    ensures forall r, c :: 0 <= r < rows && 0 <= c < cols ==>
      (r * cols + c == pos <==> (r, c) == Decompose(pos, cols))
  {
    assert cols > 0 by {
      assert rows * cols > 0;
      assert rows > 0;
      MulLess(0, cols, rows);
    }
    var q, m := pos / cols, pos % cols;
    assert pos == q * cols + m;
    MulLess(q, rows, cols);
    MulLess(-1, q, cols);
    forall r, c | 0 <= r < rows && 0 <= c < cols
      ensures r * cols + c == pos <==> (r, c) == Decompose(pos, cols)
    {
      FlatUnique(r, c, cols);
    }
  }

  /** Whether the layout puts a mine on cell (r, c). */
  predicate IsMineAt(mines: seq<int>, cols: int, r: int, c: int) {
    r * cols + c in mines
  }

  /** Mines in row `r`, columns lo until hi. */
  function ColMines(mines: seq<int>, cols: int, r: int, lo: int, hi: int): (n: nat)
    ensures lo <= hi ==> n <= hi - lo
    decreases hi - lo
  {
    if hi <= lo then 0 else ColMines(mines, cols, r, lo, hi - 1) + Ind(IsMineAt(mines, cols, r, hi - 1))
  }

  /** Mines in rows rlo until rhi, columns clo until chi. */
  function WindowMines(mines: seq<int>, cols: int, rlo: int, rhi: int, clo: int, chi: int): nat
    decreases rhi - rlo
  {
    if rhi <= rlo then 0
    else WindowMines(mines, cols, rlo, rhi - 1, clo, chi) + ColMines(mines, cols, rhi - 1, clo, chi)
  }

  /** Mines in the 3x3 block around (r, c), cut off at the edges of the board. */
  function NeighbourMines(mines: seq<int>, rows: int, cols: int, r: int, c: int): nat {
    WindowMines(mines, cols, Max(r - 1, 0), Min(r + 1, rows - 1) + 1, Max(c - 1, 0), Min(c + 1, cols - 1) + 1)
  }

  /** The type the layout gives cell (r, c): -1 for a mine, its neighbour count otherwise. */
  function LayoutKind(mines: seq<int>, rows: int, cols: int, r: int, c: int): int {
    if IsMineAt(mines, cols, r, c) then -1 else NeighbourMines(mines, rows, cols, r, c)
  }

  /** (tr, tc) lies in the 3x3 block centred on (r, c); the centre itself included. */
  predicate Adjacent(r: int, c: int, tr: int, tc: int) {
    r - 1 <= tr <= r + 1 && c - 1 <= tc <= c + 1
  }

  /** Every in-range cell of `g` carries the type `mines` gives it. */
  ghost predicate HasLayout(g: Grid, mines: seq<int>, rows: int, cols: int) {
    IsRect(g, rows, cols) &&
    forall r, c {:trigger LayoutKind(mines, rows, cols, r, c)} :: 0 <= r < rows && 0 <= c < cols ==>
      g[r][c].kind == LayoutKind(mines, rows, cols, r, c)
  }

  lemma {:induction false} ColMinesHole(mines: seq<int>, cols: int, r: int, lo: int, hi: int, c: int)
    requires lo <= c < hi && !IsMineAt(mines, cols, r, c)
    ensures ColMines(mines, cols, r, lo, hi) <= hi - lo - 1
    decreases hi - lo
  {
    if c < hi - 1 {
      ColMinesHole(mines, cols, r, lo, hi - 1, c);
    }
  }

  lemma {:induction false} WindowMinesBound(mines: seq<int>, cols: int, rlo: int, rhi: int, clo: int, chi: int)
    requires rlo <= rhi && clo <= chi
    ensures WindowMines(mines, cols, rlo, rhi, clo, chi) <= (rhi - rlo) * (chi - clo)
    decreases rhi - rlo
  {
    if rlo < rhi {
      WindowMinesBound(mines, cols, rlo, rhi - 1, clo, chi);
      assert (rhi - 1 - rlo) * (chi - clo) + (chi - clo) == (rhi - rlo) * (chi - clo);
    }
  }

  lemma {:induction false} WindowMinesHole(mines: seq<int>, cols: int, rlo: int, rhi: int, clo: int, chi: int, r: int, c: int)
    requires rlo <= r < rhi && clo <= c < chi && !IsMineAt(mines, cols, r, c)
    ensures WindowMines(mines, cols, rlo, rhi, clo, chi) <= (rhi - rlo) * (chi - clo) - 1
    decreases rhi - rlo
  {
    assert (rhi - 1 - rlo) * (chi - clo) + (chi - clo) == (rhi - rlo) * (chi - clo);
    if r == rhi - 1 {
      WindowMinesBound(mines, cols, rlo, rhi - 1, clo, chi);
      ColMinesHole(mines, cols, r, clo, chi, c);
    } else {
      WindowMinesHole(mines, cols, rlo, rhi - 1, clo, chi, r, c);
    }
  }

  /** A cell's type is -1 exactly on the layout's mines, and otherwise lies in 0..8. */
  lemma LayoutKindRange(mines: seq<int>, rows: int, cols: int, r: int, c: int)
    requires 0 <= r < rows && 0 <= c < cols
    ensures LayoutKind(mines, rows, cols, r, c) == -1 <==> IsMineAt(mines, cols, r, c)
    ensures -1 <= LayoutKind(mines, rows, cols, r, c) <= 8
  {
    if !IsMineAt(mines, cols, r, c) {
      var rlo, rhi := Max(r - 1, 0), Min(r + 1, rows - 1) + 1;
      var clo, chi := Max(c - 1, 0), Min(c + 1, cols - 1) + 1;
      WindowMinesHole(mines, cols, rlo, rhi, clo, chi, r, c);
      var h, w := rhi - rlo, chi - clo;
      assert 1 <= h <= 3 && 1 <= w <= 3;
      assert h * w <= 9 by {
        if h == 1 { } else if h == 2 { } else { assert h == 3; }
      }
    }
  }

  /** How many of the positions 0 until n the layout holds. */
  function FlatCount(mines: seq<int>, n: int): nat
    decreases n
  {
    if n <= 0 then 0 else FlatCount(mines, n - 1) + Ind(n - 1 in mines)
  }

  lemma {:induction false} FlatCountAgree(a: seq<int>, b: seq<int>, n: int)
    requires forall k :: 0 <= k < n ==> (k in a <==> k in b)
    ensures FlatCount(a, n) == FlatCount(b, n)
    decreases n
  {
    if n > 0 {
      FlatCountAgree(a, b, n - 1);
    }
  }

  /** Distinct positions below n are all counted: there are as many as the layout is long. */
  lemma {:induction false} FlatCountDistinct(mines: seq<int>, n: int)
    requires Distinct(mines) && forall i :: 0 <= i < |mines| ==> 0 <= mines[i] < n
    ensures FlatCount(mines, n) == |mines|
    decreases n
  {
    if n <= 0 {
    } else if n - 1 in mines {
      var i :| 0 <= i < |mines| && mines[i] == n - 1;
      var rest := mines[..i] + mines[i + 1..];
      RemoveAt(mines, i);
      forall j | 0 <= j < |rest| ensures 0 <= rest[j] < n - 1 {
        assert rest[j] in rest;
      }
      FlatCountDistinct(rest, n - 1);
      FlatCountAgree(mines, rest, n - 1);
    } else {
      forall j | 0 <= j < |mines| ensures 0 <= mines[j] < n - 1 {
        assert mines[j] in mines;
      }
      FlatCountDistinct(mines, n - 1);
    }
  }

  /** Removing the element at `i` from a distinct sequence removes exactly that value. */
  lemma RemoveAt(s: seq<int>, i: int)
    requires Distinct(s) && 0 <= i < |s|
    ensures Distinct(s[..i] + s[i + 1..])
    ensures forall k :: k in s[..i] + s[i + 1..] <==> k in s && k != s[i]
  {
    var rest := s[..i] + s[i + 1..];
    forall k ensures k in rest <==> k in s && k != s[i] {
      if k in rest {
        var j :| 0 <= j < |rest| && rest[j] == k;
        if j < i { assert s[j] == k; } else { assert s[j + 1] == k; }
      }
      if k in s && k != s[i] {
        var j :| 0 <= j < |s| && s[j] == k;
        if j < i { assert rest[j] == k; } else { assert rest[j - 1] == k; }
      }
    }
    forall a, b | 0 <= a < b < |rest| ensures rest[a] != rest[b] {
      var a', b' := if a < i then a else a + 1, if b < i then b else b + 1;
      assert rest[a] == s[a'] && rest[b] == s[b'];
    }
  }

  lemma {:induction false} RowMineCount(row: seq<Cell>, mines: seq<int>, cols: int, r: int, c: int)
    requires 0 <= c <= |row| && 0 <= r * cols
    requires forall j :: 0 <= j < |row| ==> (row[j].kind == -1 <==> IsMineAt(mines, cols, r, j))
    ensures CountRow(row[..c], IsMine) + FlatCount(mines, r * cols) == FlatCount(mines, r * cols + c)
  {
    if c > 0 {
      RowMineCount(row, mines, cols, r, c - 1);
      CountRowPrefix(row, c - 1, IsMine);
      assert IsMine(row[c - 1]) == (r * cols + (c - 1) in mines);
    }
  }

  lemma {:induction false} GridMineCount(g: Grid, mines: seq<int>, rows: int, cols: int, r: int)
    requires IsRect(g, rows, cols) && 0 <= r <= rows && cols >= 0
    requires forall i, j :: 0 <= i < rows && 0 <= j < cols ==> (g[i][j].kind == -1 <==> IsMineAt(mines, cols, i, j))
    ensures CountGrid(g[..r], IsMine) == FlatCount(mines, r * cols)
  {
    if r > 0 {
      var row := g[r - 1];
      GridMineCount(g, mines, rows, cols, r - 1);
      CountGridPrefix(g, r - 1, IsMine);
      assert 0 <= (r - 1) * cols by {
        assert 0 <= r - 1;
      }
      assert forall j :: 0 <= j < |row| ==> (row[j].kind == -1 <==> IsMineAt(mines, cols, r - 1, j));
      RowMineCount(row, mines, cols, r - 1, cols);
      assert row[..cols] == row;
      assert (r - 1) * cols + cols == r * cols;
    }
  }

  /** A board laid out from `mines` has exactly `numMines` mine cells. */
  lemma LayoutMineCount(g: Grid, mines: seq<int>, rows: nat, cols: nat, numMines: int)
    requires IsRect(g, rows, cols) && IsLayout(mines, rows, cols, numMines)
    requires HasLayout(g, mines, rows, cols)
    ensures CountGrid(g, IsMine) == numMines
  {
    forall i, j | 0 <= i < rows && 0 <= j < cols
      ensures g[i][j].kind == -1 <==> IsMineAt(mines, cols, i, j)
    {
      LayoutKindRange(mines, rows, cols, i, j);
    }
    GridMineCount(g, mines, rows, cols, rows);
    assert g[..rows] == g;
    FlatCountDistinct(mines, rows * cols);
  }

  lemma {:induction false} ColMinesZero(mines: seq<int>, cols: int, r: int, lo: int, hi: int, c: int)
    requires ColMines(mines, cols, r, lo, hi) == 0 && lo <= c < hi
    ensures !IsMineAt(mines, cols, r, c)
    decreases hi - lo
  {
    if c < hi - 1 {
      ColMinesZero(mines, cols, r, lo, hi - 1, c);
    }
  }

  lemma {:induction false} WindowMinesZero(mines: seq<int>, cols: int, rlo: int, rhi: int, clo: int, chi: int, r: int, c: int)
    requires WindowMines(mines, cols, rlo, rhi, clo, chi) == 0 && rlo <= r < rhi && clo <= c < chi
    ensures !IsMineAt(mines, cols, r, c)
    decreases rhi - rlo
  {
    if r < rhi - 1 {
      WindowMinesZero(mines, cols, rlo, rhi - 1, clo, chi, r, c);
    } else {
      ColMinesZero(mines, cols, r, clo, chi, c);
    }
  }

  /** No cell next to an empty (type 0) cell is a mine. */
  lemma EmptyCellHasNoMineNeighbour(mines: seq<int>, rows: int, cols: int, r: int, c: int, tr: int, tc: int)
    requires 0 <= r < rows && 0 <= c < cols && LayoutKind(mines, rows, cols, r, c) == 0
    requires 0 <= tr < rows && 0 <= tc < cols && Adjacent(r, c, tr, tc)
    ensures !IsMineAt(mines, cols, tr, tc) && LayoutKind(mines, rows, cols, tr, tc) >= 0
  {
    WindowMinesZero(mines, cols, Max(r - 1, 0), Min(r + 1, rows - 1) + 1, Max(c - 1, 0), Min(c + 1, cols - 1) + 1, tr, tc);
  }

  /** The layouts the first-exploration gate has gone through after `i` reshuffles:
      none while `i` is 0, otherwise the target (r, c) was a mine in the starting
      layout and in every one of `layouts` used before the current one, which is
      `layouts[i - 1]`. */
  ghost predicate GateTrail(start: seq<int>, cur: seq<int>, layouts: seq<seq<int>>, i: int, cols: int, r: int, c: int) {
    0 <= i <= |layouts| &&
    (i == 0 ==> cur == start) &&
    (i > 0 ==>
       IsMineAt(start, cols, r, c) && cur == layouts[i - 1] &&
       forall j :: 0 <= j < i - 1 ==> IsMineAt(layouts[j], cols, r, c))
  }

  /** A reshuffle taken because the target is a mine in the current layout extends the trail. */
  lemma GateTrailStep(start: seq<int>, cur: seq<int>, layouts: seq<seq<int>>, i: int, cols: int, r: int, c: int)
    requires GateTrail(start, cur, layouts, i, cols, r, c) && i < |layouts| && IsMineAt(cur, cols, r, c)
    ensures GateTrail(start, layouts[i], layouts, i + 1, cols, r, c)
  {
  }

  /** When the gate stops on a layout in which the target is safe, that layout is the
      starting one if the target was safe there, and otherwise the first of `layouts`
      in which the target is safe. */
  lemma GateTrailEnd(start: seq<int>, cur: seq<int>, layouts: seq<seq<int>>, i: int, cols: int, r: int, c: int)
    requires GateTrail(start, cur, layouts, i, cols, r, c) && !IsMineAt(cur, cols, r, c)
    ensures !IsMineAt(start, cols, r, c) ==> cur == start
    ensures IsMineAt(start, cols, r, c) ==>
      exists k :: 0 <= k < |layouts| && cur == layouts[k] && !IsMineAt(layouts[k], cols, r, c) &&
        forall j :: 0 <= j < k ==> IsMineAt(layouts[j], cols, r, c)
  {
    if i > 0 {
      assert cur == layouts[i - 1];
    }
  }
}
