// The two ways to win, stated on the board rather than on the counters.
module Win {
  import opened Cells
  import opened Layout

  /** The marked cells are exactly the mines. */
  ghost predicate MarksExactlyMines(g: Grid) {
    forall r, c :: InBounds(g, r, c) ==> (g[r][c].state == Marked <==> g[r][c].kind == -1)
  }

  /** Every cell that is not a mine is explored. */
  ghost predicate AllSafeExplored(g: Grid) {
    forall r, c :: InBounds(g, r, c) && g[r][c].kind != -1 ==> g[r][c].state == Explored
  }

  /** On a board laid out from `numMines` mines: at most `numMines` mines are marked;
      `numMines` marked mines and no marked safe cell mean the marks are exactly the
      mines; and `rows * cols - numMines` explored safe cells mean every safe cell is
      explored. Both equivalences hold in both directions. */
  lemma WinConditions(g: Grid, mines: seq<int>, rows: nat, cols: nat, numMines: int)
    requires IsLayout(mines, rows, cols, numMines) && HasLayout(g, mines, rows, cols)
    ensures CountGrid(g, MarkedMine) <= numMines
    ensures (CountGrid(g, MarkedMine) == numMines && CountGrid(g, MarkedSafe) == 0) <==> MarksExactlyMines(g)
    ensures CountGrid(g, ExploredSafe) == rows * cols - numMines <==> AllSafeExplored(g)
  {
    LayoutMineCount(g, mines, rows, cols, numMines);
    CountGridSplit(g, IsMine, IsSafe);
    SizeRect(g, rows, cols);
    CountGridMono(g, IsMine, g, MarkedMine);
    CountGridMono(g, IsSafe, g, ExploredSafe);
    CountGridNone(g, MarkedSafe);
    if MarksExactlyMines(g) {
      CountGridMono(g, MarkedMine, g, IsMine);
    }
    if AllSafeExplored(g) {
      CountGridMono(g, ExploredSafe, g, IsSafe);
    }
  }
}
