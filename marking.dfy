// Toggling a mark on one cell, as a function on boards.
module Marking {
  import opened Cells
  import opened Layout
  import opened Flood

  /** Default and Marked swap; an Explored cell stays as it is. */
  function Toggled(x: Cell): (y: Cell)
    ensures y.kind == x.kind
  {
    match x.state
    case Explored => x
    case Marked => x.(state := Default)
    case Default => x.(state := Marked)
  }

  /** The board after toggling the mark on (r, c). */
  function ToggleAt(g: Grid, r: int, c: int): (h: Grid)
    requires InBounds(g, r, c)
    ensures |h| == |g| && (forall i :: 0 <= i < |g| ==> |h[i]| == |g[i]|) && InBounds(h, r, c)
  {
    g[r := g[r][c := Toggled(g[r][c])]]
  }

  /** Toggling the same cell twice gives back the board it started from. */
  lemma ToggleTwice(g: Grid, r: int, c: int)
    requires InBounds(g, r, c)
    ensures ToggleAt(ToggleAt(g, r, c), r, c) == g
  {
    var x := g[r][c];
    assert Toggled(Toggled(x)) == x by {
      match x.state
      case Explored =>
      case Marked =>
      case Default =>
    }
    assert ToggleAt(g, r, c)[r][c] == Toggled(x);
    assert ToggleAt(ToggleAt(g, r, c), r, c)[r] == g[r];
  }

  /** Toggling a cell that is not explored moves exactly one mark count by one: the
      marked-mine count for a mine, the marked-safe count otherwise, up when the cell
      becomes Marked and down when it stops being Marked. Nothing explored changes. */
  lemma ToggleCounts(g: Grid, r: int, c: int)
    requires InBounds(g, r, c)
    ensures g[r][c].state == Explored ==> ToggleAt(g, r, c) == g
    ensures g[r][c].state != Explored ==>
      var d := if g[r][c].state == Marked then -1 else 1;
      var h := ToggleAt(g, r, c);
      if g[r][c].kind == -1 then
        CountGrid(h, MarkedMine) == CountGrid(g, MarkedMine) + d && CountGrid(h, MarkedSafe) == CountGrid(g, MarkedSafe)
      else
        CountGrid(h, MarkedSafe) == CountGrid(g, MarkedSafe) + d && CountGrid(h, MarkedMine) == CountGrid(g, MarkedMine)
    ensures CountGrid(ToggleAt(g, r, c), ExploredSafe) == CountGrid(g, ExploredSafe)
    ensures CountGrid(ToggleAt(g, r, c), Unexplored) == CountGrid(g, Unexplored)
  {
    var x := g[r][c];
    if x.state == Explored {
      assert g[r][c := x] == g[r];
    }
    CountGridUpdate(g, r, c, Toggled(x), MarkedMine);
    CountGridUpdate(g, r, c, Toggled(x), MarkedSafe);
    CountGridUpdate(g, r, c, Toggled(x), ExploredSafe);
    CountGridUpdate(g, r, c, Toggled(x), Unexplored);
  }

  /** Toggling a mark changes no type and explores nothing, so the layout, an
      unexplored board, a closed board and a board whose mines are all explored all
      stay as they were. */
  lemma ToggleKeepsBoard(g: Grid, r: int, c: int, mines: seq<int>, rows: int, cols: int, pending: set<Pos>)
    requires InBounds(g, r, c)
    ensures HasLayout(g, mines, rows, cols) ==> HasLayout(ToggleAt(g, r, c), mines, rows, cols)
    ensures NoneExplored(g) ==> NoneExplored(ToggleAt(g, r, c))
    ensures ClosedExcept(g, pending) ==> ClosedExcept(ToggleAt(g, r, c), pending)
    ensures MinesExplored(g) ==> MinesExplored(ToggleAt(g, r, c))
  {
    var h: Grid := ToggleAt(g, r, c);
    assert forall i, j :: InBounds(g, i, j) ==> h[i][j].kind == g[i][j].kind && (h[i][j].state == Explored <==> g[i][j].state == Explored);
    if ClosedExcept(g, pending) {
      ClosedExceptGrow(g, h, pending);
    }
  }
}
