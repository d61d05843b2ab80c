// The counters a game keeps beside its board, and how each move keeps them right.
module Bookkeeping {
  import opened Cells
  import opened Layout
  import opened Flood

  /** The board `g` is laid out from `mines`; `minesFound` counts the marked mines plus
      the `lost` marked mines that a lost game turned Explored, which are no more than
      the mines, and once there are any every mine is explored; `extraMarked` counts the
      marked safe cells; `cellsExplored` counts the explored safe cells; and until the
      layout is `frozen` nothing is explored and nothing was lost. */
  ghost predicate Balanced(g: Grid, mines: seq<int>, rows: nat, cols: nat, numMines: nat,
                           minesFound: int, extraMarked: int, cellsExplored: int, frozen: bool, lost: nat)
  {
    IsLayout(mines, rows, cols, numMines) && HasLayout(g, mines, rows, cols) &&
    minesFound == CountGrid(g, MarkedMine) + lost &&
    extraMarked == CountGrid(g, MarkedSafe) &&
    cellsExplored == CountGrid(g, ExploredSafe) &&
    lost <= numMines && (lost > 0 ==> MinesExplored(g)) &&
    (!frozen ==> lost == 0 && NoneExplored(g))
  }

  /** Exploring a safe unexplored cell: one explored safe cell more, and one marked safe
      cell fewer when it was marked. */
  lemma BalancedAfterSafeExplore(g: Grid, mines: seq<int>, rows: nat, cols: nat, numMines: nat,
                                 minesFound: int, extraMarked: int, cellsExplored: int, lost: nat, r: int, c: int)
    requires Balanced(g, mines, rows, cols, numMines, minesFound, extraMarked, cellsExplored, true, lost)
    requires InBounds(g, r, c) && g[r][c].state != Explored && g[r][c].kind != -1
    ensures Balanced(g[r := g[r][c := g[r][c].(state := Explored)]], mines, rows, cols, numMines,
                     minesFound, extraMarked - Ind(g[r][c].state == Marked), cellsExplored + 1, true, lost)
  {
    ExploreOne(g, r, c, mines, rows, cols, {});
    ExploreOneCounts(g, r, c);
  }

  /** A lost game, on the unexplored mine (r, c): every marked mine turned Explored
      joins the `lost` ones, so `minesFound` stays right without being touched. */
  lemma BalancedAfterLoss(g0: Grid, g: Grid, mines: seq<int>, rows: nat, cols: nat, numMines: nat,
                          minesFound: int, extraMarked: int, cellsExplored: int, lost: nat, r: int, c: int)
    requires Balanced(g0, mines, rows, cols, numMines, minesFound, extraMarked, cellsExplored, true, lost)
    requires InBounds(g0, r, c) && g0[r][c].kind == -1 && g0[r][c].state != Explored
    requires |g| == |g0| && forall i :: 0 <= i < |g| ==> |g[i]| == |g0[i]|
    requires forall i, j :: InBounds(g0, i, j) ==> g[i][j] == RevealedMine(g0[i][j])
    ensures lost == 0
    ensures Balanced(g, mines, rows, cols, numMines,
                     minesFound, extraMarked, cellsExplored, true, lost + CountGrid(g0, MarkedMine))
  {
    RevealCounts(g0, g, {}, mines, rows, cols);
    LayoutMineCount(g0, mines, rows, cols, numMines);
    CountGridMono(g0, IsMine, g0, MarkedMine);
  }

  /** Laying out the mines afresh on a board where nothing is explored: with the marks
      recounted, the counters balance again and nothing is explored or lost. */
  lemma BalancedAfterRelayout(g0: Grid, g: Grid, mines: seq<int>, rows: nat, cols: nat, numMines: nat,
                              minesFound: int, extraMarked: int, frozen: bool)
    requires IsLayout(mines, rows, cols, numMines) && HasLayout(g, mines, rows, cols)
    requires SameStates(g0, g) && NoneExplored(g0)
    requires minesFound == CountGrid(g, MarkedMine) && extraMarked == CountGrid(g, MarkedSafe)
    ensures Balanced(g, mines, rows, cols, numMines, minesFound, extraMarked, 0, frozen, 0)
  {
    RelayoutFacts(g0, g);
  }

  /** However the game went, `minesFound` never exceeds the number of mines: before a
      loss it counts marked mines, and after one no mine is still marked. */
  lemma MinesFoundBound(g: Grid, mines: seq<int>, rows: nat, cols: nat, numMines: nat,
                        minesFound: int, extraMarked: int, cellsExplored: int, frozen: bool, lost: nat)
    requires Balanced(g, mines, rows, cols, numMines, minesFound, extraMarked, cellsExplored, frozen, lost)
    ensures 0 <= minesFound <= numMines
  {
    if lost > 0 {
      CountGridNone(g, MarkedMine);
    } else {
      LayoutMineCount(g, mines, rows, cols, numMines);
      CountGridMono(g, IsMine, g, MarkedMine);
    }
  }
}
