// What a reveal leaves behind: the explored region is closed under "an explored
// empty cell has all its neighbours explored", and is the least such region.
module Flood {
  import opened Cells
  import opened Layout

  datatype Pos = Pos(r: int, c: int)

  ghost predicate NeighboursExplored(g: Grid, r: int, c: int) {
    forall tr, tc :: InBounds(g, tr, tc) && Adjacent(r, c, tr, tc) ==> g[tr][tc].state == Explored
  }

  /** Every explored empty cell, except those in `pending`, has all its neighbours explored. */
  ghost predicate ClosedExcept(g: Grid, pending: set<Pos>) {
    forall r, c {:trigger NeighboursExplored(g, r, c)} ::
      InBounds(g, r, c) && g[r][c].state == Explored && g[r][c].kind == 0 && Pos(r, c) !in pending ==>
      NeighboursExplored(g, r, c)
  }

  /** S holds every in-range neighbour of each cell it holds that the layout makes empty. */
  ghost predicate ClosedUnder(mines: seq<int>, rows: int, cols: int, S: set<Pos>) {
    forall p :: p in S && 0 <= p.r < rows && 0 <= p.c < cols && LayoutKind(mines, rows, cols, p.r, p.c) == 0 ==>
      forall tr, tc :: 0 <= tr < rows && 0 <= tc < cols && Adjacent(p.r, p.c, tr, tc) ==> Pos(tr, tc) in S
  }

  /** Every explored cell of `g` is in S. */
  ghost predicate ExploredWithin(g: Grid, S: set<Pos>) {
    forall r, c :: InBounds(g, r, c) && g[r][c].state == Explored ==> Pos(r, c) in S
  }

  /** The cells explored in `g` lie inside every closed set that holds `t` and the cells
      explored in `g0`: together with closedness, `g` explores the least such set. */
  ghost predicate LeastClosed(g0: Grid, g: Grid, mines: seq<int>, rows: int, cols: int, t: Pos) {
    forall S {:trigger ExploredWithin(g, S)} :: t in S && ExploredWithin(g0, S) && ClosedUnder(mines, rows, cols, S) ==> ExploredWithin(g, S)
  }

  /** `g` is `g0` with some non-mine cells turned Explored, and nothing else changed. */
  ghost predicate GrewSafely(g0: Grid, g: Grid) {
    |g| == |g0| && (forall r :: 0 <= r < |g| ==> |g[r]| == |g0[r]|) &&
    forall r, c :: InBounds(g0, r, c) ==>
      g[r][c] == g0[r][c] || (g[r][c] == g0[r][c].(state := Explored) && g0[r][c].kind != -1)
  }

  /** Every cell of `g` keeps its state from `g0`, or became Explored and is not a mine. */
  ghost predicate StatesGrewSafely(g0: Grid, g: Grid) {
    |g| == |g0| && (forall r :: 0 <= r < |g| ==> |g[r]| == |g0[r]|) &&
    forall r, c :: InBounds(g0, r, c) ==>
      g[r][c].state == g0[r][c].state || (g[r][c].state == Explored && g[r][c].kind != -1)
  }

  /** A cell after a lost game: mines are shown, other cells are left as they were. */
  function RevealedMine(x: Cell): (y: Cell)
    ensures y.kind == x.kind && (y.state == Explored || y == x)
  {
    if x.kind == -1 then x.(state := Explored) else x
  }

  /** Closedness survives turning cells Explored, as long as each of them is either not
      empty or left pending. */
  lemma ClosedExceptGrow(g0: Grid, g: Grid, pending: set<Pos>)
    requires |g| == |g0| && forall r :: 0 <= r < |g| ==> |g[r]| == |g0[r]|
    requires forall r, c :: InBounds(g0, r, c) ==> g[r][c].kind == g0[r][c].kind
    requires forall r, c :: InBounds(g0, r, c) && g0[r][c].state == Explored ==> g[r][c].state == Explored
    requires forall r, c :: InBounds(g0, r, c) && g[r][c].state == Explored && g0[r][c].state != Explored ==>
      g[r][c].kind != 0 || Pos(r, c) in pending
    requires ClosedExcept(g0, pending)
    ensures ClosedExcept(g, pending)
  {
    forall r, c | InBounds(g, r, c) && g[r][c].state == Explored && g[r][c].kind == 0 && Pos(r, c) !in pending
      ensures NeighboursExplored(g, r, c)
    {
      assert NeighboursExplored(g0, r, c);
    }
  }

  /** Relaying the mines of a board where nothing is explored keeps nothing explored,
      so the board is trivially closed, and keeps an unmarked board unmarked. */
  lemma RelayoutFacts(g0: Grid, g: Grid)
    requires SameStates(g0, g) && NoneExplored(g0)
    ensures NoneExplored(g) && CountGrid(g, ExploredSafe) == 0 && ClosedExcept(g, {})
    ensures CountGrid(g0, MarkedMine) == 0 && CountGrid(g0, MarkedSafe) == 0 ==>
      CountGrid(g, MarkedMine) == 0 && CountGrid(g, MarkedSafe) == 0
  {
    assert NoneExplored(g) by {
      forall r, c | InBounds(g, r, c) ensures g[r][c].state != Explored {
        assert InBounds(g0, r, c);
      }
    }
    CountGridNone(g, ExploredSafe);
    if CountGrid(g0, MarkedMine) == 0 && CountGrid(g0, MarkedSafe) == 0 {
      CountGridNone(g0, MarkedMine);
      CountGridNone(g0, MarkedSafe);
      forall r, c | InBounds(g, r, c) ensures !MarkedMine(g[r][c]) && !MarkedSafe(g[r][c]) {
        assert InBounds(g0, r, c) && !MarkedMine(g0[r][c]) && !MarkedSafe(g0[r][c]);
      }
      CountGridNone(g, MarkedMine);
      CountGridNone(g, MarkedSafe);
    }
  }

  /** Growing safely twice is growing safely, and growing never adds an unexplored cell. */
  lemma GrewSafelyTrans(a: Grid, b: Grid, c: Grid)
    requires GrewSafely(a, b) && GrewSafely(b, c)
    ensures GrewSafely(a, c)
    ensures CountGrid(c, Unexplored) <= CountGrid(b, Unexplored) <= CountGrid(a, Unexplored)
  {
    CountGridMono(a, Unexplored, b, Unexplored);
    CountGridMono(b, Unexplored, c, Unexplored);
  }

  /** Turning the unexplored cell (r, c) Explored: what is explored then lies in every
      closed set holding (r, c) and the cells explored before; a safe cell grows safely;
      exactly one cell fewer is unexplored; the board keeps its layout and stays closed
      except at (r, c), and everywhere when (r, c) is not empty. */
  lemma ExploreOne(g: Grid, r: int, c: int, mines: seq<int>, rows: int, cols: int, pending: set<Pos>)
    requires InBounds(g, r, c) && g[r][c].state != Explored
    ensures var h := g[r := g[r][c := g[r][c].(state := Explored)]];
      LeastClosed(g, h, mines, rows, cols, Pos(r, c)) &&
      (g[r][c].kind != -1 ==> GrewSafely(g, h)) &&
      CountGrid(h, Unexplored) == CountGrid(g, Unexplored) - 1 &&
      (HasLayout(g, mines, rows, cols) ==> HasLayout(h, mines, rows, cols)) &&
      (ClosedExcept(g, pending) ==> ClosedExcept(h, pending + {Pos(r, c)})) &&
      (ClosedExcept(g, pending) && g[r][c].kind != 0 ==> ClosedExcept(h, pending))
  {
    var h := g[r := g[r][c := g[r][c].(state := Explored)]];
    forall S | Pos(r, c) in S && ExploredWithin(g, S) && ClosedUnder(mines, rows, cols, S)
      ensures ExploredWithin(h, S)
    {
      forall i, j | InBounds(h, i, j) && h[i][j].state == Explored ensures Pos(i, j) in S {
        if i != r || j != c {
          assert h[i][j] == g[i][j];
        }
      }
    }
    CountGridUpdate(g, r, c, g[r][c].(state := Explored), Unexplored);
    if ClosedExcept(g, pending) {
      assert ClosedExcept(g, pending + {Pos(r, c)});
      ClosedExceptGrow(g, h, pending + {Pos(r, c)});
      if g[r][c].kind != 0 {
        ClosedExceptGrow(g, h, pending);
      }
    }
  }

  /** The counts that exploring the safe unexplored cell (r, c) moves: one explored safe
      cell more, one marked safe cell fewer if it was marked, marked mines unchanged. */
  lemma ExploreOneCounts(g: Grid, r: int, c: int)
    requires InBounds(g, r, c) && g[r][c].state != Explored && g[r][c].kind != -1
    ensures var h := g[r := g[r][c := g[r][c].(state := Explored)]];
      CountGrid(h, MarkedMine) == CountGrid(g, MarkedMine) &&
      CountGrid(h, MarkedSafe) == CountGrid(g, MarkedSafe) - Ind(g[r][c].state == Marked) &&
      CountGrid(h, ExploredSafe) == CountGrid(g, ExploredSafe) + 1
  {
    var x := g[r][c].(state := Explored);
    CountGridUpdate(g, r, c, x, MarkedMine);
    CountGridUpdate(g, r, c, x, MarkedSafe);
    CountGridUpdate(g, r, c, x, ExploredSafe);
  }

  /** Least-closedness composes along a chain of reveals. */
  lemma LeastClosedTrans(g0: Grid, g1: Grid, g2: Grid, mines: seq<int>, rows: int, cols: int, t: Pos)
    requires LeastClosed(g0, g1, mines, rows, cols, t) && LeastClosed(g1, g2, mines, rows, cols, t)
    ensures LeastClosed(g0, g2, mines, rows, cols, t)
  {
  }

  /** What a reveal from a neighbour `n` of an empty cell `t` explores lies in every
      closed set that holds `t`. */
  lemma LeastClosedNeighbour(g0: Grid, g: Grid, mines: seq<int>, rows: int, cols: int, t: Pos, n: Pos)
    requires 0 <= t.r < rows && 0 <= t.c < cols && LayoutKind(mines, rows, cols, t.r, t.c) == 0
    requires 0 <= n.r < rows && 0 <= n.c < cols && Adjacent(t.r, t.c, n.r, n.c)
    requires LeastClosed(g0, g, mines, rows, cols, n)
    ensures LeastClosed(g0, g, mines, rows, cols, t)
  {
    forall S | t in S && ExploredWithin(g0, S) && ClosedUnder(mines, rows, cols, S)
      ensures ExploredWithin(g, S)
    {
      assert n in S;
    }
  }

  /** Least-closedness only looks at states, so a relayout that keeps them keeps it. */
  lemma LeastClosedSameStates(g0: Grid, h0: Grid, g: Grid, mines: seq<int>, rows: int, cols: int, t: Pos)
    requires SameStates(g0, h0) && LeastClosed(h0, g, mines, rows, cols, t)
    ensures LeastClosed(g0, g, mines, rows, cols, t)
  {
    forall S | t in S && ExploredWithin(g0, S) && ClosedUnder(mines, rows, cols, S)
      ensures ExploredWithin(g, S)
    {
      assert ExploredWithin(h0, S) by {
        forall r, c | InBounds(h0, r, c) && h0[r][c].state == Explored ensures Pos(r, c) in S {
          assert InBounds(g0, r, c);
        }
      }
    }
  }

  /** After a lost game every mine is explored, so no mine is still marked; the safe
      cells, their marks, the layout and the closedness of the board are as before. */
  lemma RevealCounts(g0: Grid, g: Grid, pending: set<Pos>, mines: seq<int>, rows: int, cols: int)
    requires |g| == |g0| && forall r :: 0 <= r < |g| ==> |g[r]| == |g0[r]|
    requires forall r, c :: InBounds(g0, r, c) ==> g[r][c] == RevealedMine(g0[r][c])
    ensures CountGrid(g, MarkedMine) == 0
    ensures CountGrid(g, MarkedSafe) == CountGrid(g0, MarkedSafe)
    ensures CountGrid(g, ExploredSafe) == CountGrid(g0, ExploredSafe)
    ensures ClosedExcept(g0, pending) ==> ClosedExcept(g, pending)
    ensures HasLayout(g0, mines, rows, cols) ==> HasLayout(g, mines, rows, cols)
    ensures MinesExplored(g)
  {
    CountGridNone(g, MarkedMine);
    CountGridAgree(g, g0, MarkedSafe);
    CountGridAgree(g, g0, ExploredSafe);
    if ClosedExcept(g0, pending) {
      ClosedExceptGrow(g0, g, pending);
    }
  }

  /** Growing safely after a relayout that kept every state. */
  lemma StatesGrewSafelyAfter(g0: Grid, h0: Grid, g: Grid)
    requires SameStates(g0, h0) && GrewSafely(h0, g)
    ensures StatesGrewSafely(g0, g)
  {
    forall r, c | InBounds(g0, r, c)
      ensures g[r][c].state == g0[r][c].state || (g[r][c].state == Explored && g[r][c].kind != -1)
    {
      assert InBounds(h0, r, c);
    }
  }

  /** Once every in-range neighbour of (r, c) is explored, (r, c) need not stay pending. */
  lemma ClosePending(g: Grid, pending: set<Pos>, r: int, c: int, rows: int, cols: int)
    requires IsRect(g, rows, cols) && ClosedExcept(g, pending + {Pos(r, c)})
    requires forall i, j :: Max(r - 1, 0) <= i <= Min(r + 1, rows - 1) && Max(c - 1, 0) <= j <= Min(c + 1, cols - 1) ==>
      g[i][j].state == Explored
    ensures ClosedExcept(g, pending)
  {
    if 0 <= r < rows && 0 <= c < cols {
      assert NeighboursExplored(g, r, c);
    }
  }

  /** Growing safely keeps a block of explored rows explored, and one more explored row
      extends it. */
  lemma ExploredRowsGrow(g0: Grid, g: Grid, rows: int, cols: int, rlo: int, r: int, clo: int, chi: int)
    requires IsRect(g0, rows, cols) && GrewSafely(g0, g)
    requires 0 <= rlo && 0 <= r < rows && 0 <= clo && chi < cols
    requires forall i, j :: rlo <= i < r && clo <= j <= chi ==> g0[i][j].state == Explored
    requires forall j :: clo <= j <= chi ==> g[r][j].state == Explored
    ensures forall i, j :: rlo <= i < r + 1 && clo <= j <= chi ==> g[i][j].state == Explored
  {
    forall i, j | rlo <= i < r + 1 && clo <= j <= chi ensures g[i][j].state == Explored {
      if i < r {
        assert InBounds(g0, i, j);
      }
    }
  }

  /** Growing safely keeps a run of explored cells of row r explored, and one more
      explored cell extends it. */
  lemma ExploredRunGrows(g0: Grid, g: Grid, rows: int, cols: int, r: int, clo: int, c: int)
    requires IsRect(g0, rows, cols) && GrewSafely(g0, g)
    requires 0 <= r < rows && 0 <= clo && 0 <= c < cols
    requires forall j :: clo <= j < c ==> g0[r][j].state == Explored
    requires g[r][c].state == Explored
    ensures forall j :: clo <= j < c + 1 ==> g[r][j].state == Explored
  {
    forall j | clo <= j < c + 1 ensures g[r][j].state == Explored {
      if j < c {
        assert InBounds(g0, r, j);
      }
    }
  }
}
