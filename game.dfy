// The game engine: a rows x cols board of cells updated in place, with three
// counters kept in step with it and a flag that freezes the mine layout.
module Game {
  import opened Cells
  import opened Layout
  import opened Flood
  import opened Marking
  import opened Win
  import opened Bookkeeping

  class MineSweeper {
    const rows: nat
    const cols: nat
    const numMines: nat
    const field: array2<Cell>
    var extraMarked: int
    var minesFound: int
    var cellsExplored: int
    var validFieldSet: bool

    // public view: the board as a value, the current layout, and the marked
    // mines that a lost game turned Explored without taking them off minesFound
    ghost var View: Grid
    ghost var Mines: seq<int>
    ghost var LostMarks: nat

    /** `View` mirrors `field`. */
    ghost predicate Shape()
      reads this, field
    {
      field.Length0 == rows && field.Length1 == cols && IsRect(View, rows, cols) &&
      forall r, c :: 0 <= r < rows && 0 <= c < cols ==> field[r, c] == View[r][c]
    }

    /** The types follow the layout and each counter counts what it is named after. */
    ghost predicate Consistent()
      reads this, field
    {
      Shape() &&
      Balanced(View, Mines, rows, cols, numMines, minesFound, extraMarked, cellsExplored, validFieldSet, LostMarks)
    }

    /** Consistent, and no explored empty cell borders an unexplored one. */
    ghost predicate Valid()
      reads this, field
    {
      Consistent() && ClosedExcept(View, {})
    }

    constructor (rows: nat, cols: nat, numMines: nat, mines: seq<int>)
      requires IsLayout(mines, rows, cols, numMines)
      ensures Valid() && fresh(field)
      ensures this.rows == rows && this.cols == cols && this.numMines == numMines
      ensures Mines == mines && !validFieldSet
      ensures extraMarked == 0 && minesFound == 0 && cellsExplored == 0
      ensures forall r, c :: 0 <= r < rows && 0 <= c < cols ==> View[r][c].state == Default
    {
      this.rows, this.cols, this.numMines := rows, cols, numMines;
      field := new Cell[rows, cols]((r, c) => Cell(0, Default));
      extraMarked, minesFound, cellsExplored := 0, 0, 0;
      validFieldSet := false;
      new;
      View := Blank(rows, cols);
      LostMarks := 0;
      BlankFacts(rows, cols);
      ResetField(mines);
    }

    /** Writes one cell of the board. */
    method SetCell(r: int, c: int, x: Cell)
      requires Shape() && 0 <= r < rows && 0 <= c < cols
      modifies field, this`View
      ensures Shape() && View == old(View)[r := old(View)[r][c := x]]
    {
      field[r, c] := x;
      View := View[r := View[r][c := x]];
    }

    /** Lays the mines out afresh from `mines` (the positions the random shuffle would
        pick), recomputes every neighbour count, and recounts the marks against the new
        types. Only called before any cell is explored. */
    method ResetField(mines: seq<int>)
      requires Shape() && IsLayout(mines, rows, cols, numMines)
      requires NoneExplored(View) && cellsExplored == 0 && LostMarks == 0
      requires minesFound == CountGrid(View, MarkedMine) && extraMarked == CountGrid(View, MarkedSafe)
      modifies this, field
      ensures Valid() && Mines == mines && SameStates(old(View), View)
      ensures validFieldSet == old(validFieldSet) && cellsExplored == 0 && LostMarks == 0
      ensures old(extraMarked) == 0 && old(minesFound) == 0 ==> extraMarked == 0 && minesFound == 0
    {
      ghost var v0: Grid := View;
      ClearTypes();
      PlaceMines(mines);
      CountNeighbours(mines);
      Mines := mines;
      RelayoutFacts(v0, View);
      if extraMarked != 0 || minesFound != 0 {
        RecountMarks();
      }
      BalancedAfterRelayout(v0, View, mines, rows, cols, numMines, minesFound, extraMarked, validFieldSet);
    }

    /** First phase of ResetField: every type back to 0. */
    method ClearTypes()
      requires Shape()
      modifies field, this`View
      ensures Shape() && SameStates(old(View), View)
      ensures forall r, c :: 0 <= r < rows && 0 <= c < cols ==> View[r][c].kind == 0
    {
      ghost var v0: Grid := View;
      for r := 0 to rows
        modifies field, this`View
        invariant Shape()
        invariant forall i, j :: 0 <= i < rows && 0 <= j < cols ==>
          View[i][j] == if i < r then v0[i][j].(kind := 0) else v0[i][j]
      {
        for c := 0 to cols
          modifies field, this`View
          invariant Shape()
          invariant forall i, j :: 0 <= i < rows && 0 <= j < cols ==>
            View[i][j] == if i < r || (i == r && j < c) then v0[i][j].(kind := 0) else v0[i][j]
        {
          SetCell(r, c, field[r, c].(kind := 0));
        }
      }
    }

    /** Second phase of ResetField: type -1 on every position of `mines`. */
    method PlaceMines(mines: seq<int>)
      requires Shape() && IsLayout(mines, rows, cols, numMines)
      requires forall r, c :: 0 <= r < rows && 0 <= c < cols ==> View[r][c].kind == 0
      modifies field, this`View
      ensures Shape() && SameStates(old(View), View)
      ensures forall r, c :: 0 <= r < rows && 0 <= c < cols ==>
        View[r][c].kind == if IsMineAt(mines, cols, r, c) then -1 else 0
    {
      ghost var v0: Grid := View;
      for i := 0 to |mines|
        modifies field, this`View
        invariant Shape()
        invariant forall r, c :: 0 <= r < rows && 0 <= c < cols ==>
          View[r][c].state == v0[r][c].state &&
          View[r][c].kind == if IsMineAt(mines[..i], cols, r, c) then -1 else 0
      {
        var pos := mines[i];
        DecomposeBijective(pos, rows, cols);
        var r, c := pos / cols, pos % cols;
        ghost var before: Grid := View;
        SetCell(r, c, field[r, c].(kind := -1));
        assert mines[..i + 1] == mines[..i] + [pos];
        forall r', c' | 0 <= r' < rows && 0 <= c' < cols
          ensures View[r'][c'].state == v0[r'][c'].state
          ensures View[r'][c'].kind == if IsMineAt(mines[..i + 1], cols, r', c') then -1 else 0
        {
          if r' != r || c' != c {
            assert View[r'][c'] == before[r'][c'];
            FlatUnique(r', c', cols);
          }
        }
      }
      assert mines[..|mines|] == mines;
    }

    /** Third phase of ResetField: every cell that is not a mine gets the number of
        mines in the 3x3 block around it, cut off at the edges. */
    method CountNeighbours(mines: seq<int>)
      requires Shape()
      requires forall r, c :: 0 <= r < rows && 0 <= c < cols ==>
        View[r][c].kind == if IsMineAt(mines, cols, r, c) then -1 else 0
      modifies field, this`View
      ensures Shape() && HasLayout(View, mines, rows, cols) && SameStates(old(View), View)
    {
      ghost var v0: Grid := View;
      for r := 0 to rows
        modifies field, this`View
        invariant Shape()
        invariant forall i, j :: 0 <= i < rows && 0 <= j < cols ==>
          View[i][j].state == v0[i][j].state &&
          View[i][j].kind == if i < r then LayoutKind(mines, rows, cols, i, j)
                             else if IsMineAt(mines, cols, i, j) then -1 else 0
      {
        for c := 0 to cols
          modifies field, this`View
          invariant Shape()
          invariant forall i, j :: 0 <= i < rows && 0 <= j < cols ==>
            View[i][j].state == v0[i][j].state &&
            View[i][j].kind == if i < r || (i == r && j < c) then LayoutKind(mines, rows, cols, i, j)
                               else if IsMineAt(mines, cols, i, j) then -1 else 0
        {
          if field[r, c].kind == 0 {
            forall i, j | 0 <= i < rows && 0 <= j < cols
              ensures View[i][j].kind == -1 <==> IsMineAt(mines, cols, i, j)
            {
              LayoutKindRange(mines, rows, cols, i, j);
            }
            var nmines := MinesAround(r, c, mines);
            if nmines != 0 {
              SetCell(r, c, field[r, c].(kind := nmines));
            }
          }
        }
      }
    }

    /** The loop of CountNeighbours that counts the mines around (r, c) by their type. */
    method MinesAround(r: int, c: int, ghost mines: seq<int>) returns (nmines: int)
      requires Shape() && 0 <= r < rows && 0 <= c < cols
      requires forall i, j :: 0 <= i < rows && 0 <= j < cols ==> (View[i][j].kind == -1 <==> IsMineAt(mines, cols, i, j))
      ensures nmines == NeighbourMines(mines, rows, cols, r, c)
    {
      nmines := 0;
      var nl, nr, nu, nd := Max(c - 1, 0), Min(c + 1, cols - 1), Max(r - 1, 0), Min(r + 1, rows - 1);
      for tr := nu to nd + 1
        invariant nmines == WindowMines(mines, cols, nu, tr, nl, nr + 1)
      {
        for tc := nl to nr + 1
          invariant nmines == WindowMines(mines, cols, nu, tr, nl, nr + 1) + ColMines(mines, cols, tr, nl, tc)
        {
          if field[tr, tc].kind == -1 {
            nmines := nmines + 1;
          }
        }
      }
    }

    /** Last phase of ResetField: both mark counters rebuilt by a scan of the board. */
    method RecountMarks()
      requires Shape()
      modifies this`minesFound, this`extraMarked
      ensures minesFound == CountGrid(View, MarkedMine) && extraMarked == CountGrid(View, MarkedSafe)
    {
      extraMarked, minesFound := 0, 0;
      for r := 0 to rows
        invariant minesFound == CountGrid(View[..r], MarkedMine)
        invariant extraMarked == CountGrid(View[..r], MarkedSafe)
      {
        for c := 0 to cols
          invariant minesFound == CountGrid(View[..r], MarkedMine) + CountRow(View[r][..c], MarkedMine)
          invariant extraMarked == CountGrid(View[..r], MarkedSafe) + CountRow(View[r][..c], MarkedSafe)
        {
          var kind := field[r, c].kind;
          var state := field[r, c].state;
          CountRowPrefix(View[r], c, MarkedMine);
          CountRowPrefix(View[r], c, MarkedSafe);
          if state == Marked {
            if kind == -1 {
              minesFound := minesFound + 1;
            } else {
              extraMarked := extraMarked + 1;
            }
          }
        }
        assert View[r][..cols] == View[r];
        CountGridPrefix(View, r, MarkedMine);
        CountGridPrefix(View, r, MarkedSafe);
      }
      assert View[..rows] == View;
    }
  
    /** The game is over when every safe cell is explored, or when the marks hit
        exactly the mines. Before any loss the counters say exactly that of the board. */
    function Finished(): (done: bool)
      reads this, field
      requires Valid()
      ensures LostMarks == 0 ==> (done <==> AllSafeExplored(View) || MarksExactlyMines(View))
    {
      WinConditions(View, Mines, rows, cols, numMines);
      var winByMarkingAllMines := minesFound == numMines && extraMarked == 0;
      var winByExploringAllCells := cellsExplored == rows * cols - numMines;
      winByExploringAllCells || winByMarkingAllMines
    }

    /** minesFound never exceeds the number of mines, even after a lost game. */
    lemma MinesFoundBound()
      requires Valid()
      ensures 0 <= minesFound <= numMines
    {
      Bookkeeping.MinesFoundBound(View, Mines, rows, cols, numMines, minesFound, extraMarked, cellsExplored,
                                  validFieldSet, LostMarks);
    }

    /** Toggles the mark on column x, row y (both counted from 1); an explored cell
        is left alone. The counter for the cell's kind follows the mark. */
    method MarkCell(x: int, y: int)
      requires Valid() && 1 <= x <= cols && 1 <= y <= rows
      modifies this, field
      ensures Valid() && View == ToggleAt(old(View), y - 1, x - 1)
      ensures Mines == old(Mines) && LostMarks == old(LostMarks) && validFieldSet == old(validFieldSet)
      ensures cellsExplored == old(cellsExplored)
    {
      var r, c := y - 1, x - 1;
      ghost var v0: Grid := View;
      ToggleCounts(View, r, c);
      ToggleKeepsBoard(View, r, c, Mines, rows, cols, {});
      var state := field[r, c].state;
      if state == Explored {
        return;
      }
      var kind := field[r, c].kind;
      if state == Marked {
        if kind == -1 {
          minesFound := minesFound - 1;
        } else {
          extraMarked := extraMarked - 1;
        }
        SetCell(r, c, field[r, c].(state := Default));
      } else {
        if kind == -1 {
          minesFound := minesFound + 1;
        } else {
          extraMarked := extraMarked + 1;
        }
        SetCell(r, c, field[r, c].(state := Marked));
      }
      assert View == ToggleAt(v0, r, c);
    }
  
    /** Plays column x, row y (both counted from 1). An explored cell is left alone.
        Until the layout is frozen, a mine under the first cell played is moved away by
        relaying the mines (see FreezeLayout), so the first cell played is never a mine.
        Returns false exactly when the cell is a mine. */
    method ExploreCell(x: int, y: int, layouts: seq<seq<int>>) returns (safe: bool)
      requires Valid() && 1 <= x <= cols && 1 <= y <= rows
      requires forall i {:trigger IsLayout(layouts[i], rows, cols, numMines)} :: 0 <= i < |layouts| ==> IsLayout(layouts[i], rows, cols, numMines)
      requires !validFieldSet ==>
        !IsMineAt(Mines, cols, y - 1, x - 1) || exists i :: 0 <= i < |layouts| && !IsMineAt(layouts[i], cols, y - 1, x - 1)
      modifies this, field
      ensures Valid()
      ensures old(View)[y - 1][x - 1].state == Explored ==> safe && unchanged(this)
      ensures old(View)[y - 1][x - 1].state != Explored ==>
        validFieldSet && View[y - 1][x - 1].state == Explored && (safe <==> !IsMineAt(Mines, cols, y - 1, x - 1))
      ensures !old(validFieldSet) ==> safe
      ensures old(validFieldSet) ==> Mines == old(Mines)
      ensures !old(validFieldSet) && !IsMineAt(old(Mines), cols, y - 1, x - 1) ==> Mines == old(Mines)
      ensures !old(validFieldSet) && IsMineAt(old(Mines), cols, y - 1, x - 1) ==>
        exists k :: 0 <= k < |layouts| && Mines == layouts[k] && !IsMineAt(layouts[k], cols, y - 1, x - 1) &&
          forall j :: 0 <= j < k ==> IsMineAt(layouts[j], cols, y - 1, x - 1)
      ensures safe ==> (LostMarks == old(LostMarks) && StatesGrewSafely(old(View), View) &&
                        LeastClosed(old(View), View, Mines, rows, cols, Pos(y - 1, x - 1)))
      ensures !safe ==> (LostMarks == old(LostMarks) + CountGrid(old(View), MarkedMine) &&
                         forall i, j :: 0 <= i < rows && 0 <= j < cols ==> View[i][j] == RevealedMine(old(View)[i][j]))
    {
      var r, c := y - 1, x - 1;
      var state := field[r, c].state;
      if state == Explored {
        return true;
      }
      if !validFieldSet {
        FreezeLayout(r, c, layouts);
      }
      ghost var vg: Grid := View;
      LayoutKindRange(Mines, rows, cols, r, c);
      safe := Uncover(r, c, {});
      if safe {
        StatesGrewSafelyAfter(old(View), vg, View);
        LeastClosedSameStates(old(View), vg, View, Mines, rows, cols, Pos(r, c));
      }
    }

    /** The loop that freezes the layout, entered while it is not frozen: the layout is
        kept if (r, c) is not a mine and otherwise laid out afresh from the next of
        `layouts` (the random shuffles), so the layout frozen is the current one when
        (r, c) is safe in it, and otherwise the first of `layouts` that makes it safe. */
    method FreezeLayout(r: int, c: int, layouts: seq<seq<int>>)
      requires Valid() && !validFieldSet && 0 <= r < rows && 0 <= c < cols
      requires forall i {:trigger IsLayout(layouts[i], rows, cols, numMines)} :: 0 <= i < |layouts| ==> IsLayout(layouts[i], rows, cols, numMines)
      requires !IsMineAt(Mines, cols, r, c) || exists i :: 0 <= i < |layouts| && !IsMineAt(layouts[i], cols, r, c)
      modifies this, field
      ensures Valid() && validFieldSet && SameStates(old(View), View) && LostMarks == old(LostMarks)
      ensures !IsMineAt(Mines, cols, r, c)
      ensures !IsMineAt(old(Mines), cols, r, c) ==> Mines == old(Mines) && View == old(View)
      ensures IsMineAt(old(Mines), cols, r, c) ==>
        exists k :: 0 <= k < |layouts| && Mines == layouts[k] && !IsMineAt(layouts[k], cols, r, c) &&
          forall j :: 0 <= j < k ==> IsMineAt(layouts[j], cols, r, c)
    {
      var i := 0;
      ghost var k := |layouts|;
      if exists j :: 0 <= j < |layouts| && !IsMineAt(layouts[j], cols, r, c) {
        k :| 0 <= k < |layouts| && !IsMineAt(layouts[k], cols, r, c);
      }
      while !validFieldSet
        invariant Valid() && 0 <= i <= |layouts| && SameStates(old(View), View) && LostMarks == old(LostMarks)
        invariant GateTrail(old(Mines), Mines, layouts, i, cols, r, c)
        invariant i == 0 ==> View == old(View)
        invariant !validFieldSet ==>
          !IsMineAt(Mines, cols, r, c) || (i <= k < |layouts| && !IsMineAt(layouts[k], cols, r, c))
        invariant validFieldSet ==> !IsMineAt(Mines, cols, r, c)
        decreases |layouts| - i, if validFieldSet then 0 else 1
      {
        ghost var v: Grid := View;
        ghost var m := Mines;
        var relaid := GateStep(r, c, layouts, i);
        SameStatesTrans(old(View), v, View);
        if relaid {
          GateTrailStep(old(Mines), m, layouts, i, cols, r, c);
          if IsMineAt(layouts[i], cols, r, c) {
            assert i < k;
          }
          i := i + 1;
        }
      }
      GateTrailEnd(old(Mines), Mines, layouts, i, cols, r, c);
    }

    /** The body of the gate loop: the layout is frozen as it is when (r, c) is not a
        mine, and laid out afresh from `layouts[i]` otherwise. */
    method GateStep(r: int, c: int, layouts: seq<seq<int>>, i: int) returns (relaid: bool)
      requires Valid() && !validFieldSet && 0 <= r < rows && 0 <= c < cols && 0 <= i
      requires IsMineAt(Mines, cols, r, c) ==> i < |layouts| && IsLayout(layouts[i], rows, cols, numMines)
      modifies this, field
      ensures Valid() && SameStates(old(View), View) && LostMarks == old(LostMarks)
      ensures relaid <==> IsMineAt(old(Mines), cols, r, c)
      ensures !relaid ==> validFieldSet && Mines == old(Mines) && View == old(View)
      ensures relaid ==> !validFieldSet && Mines == layouts[i]
    {
      var cell := KindAt(r, c);
      if cell != -1 {
        Freeze();
        return false;
      }
      Reshuffle(layouts[i]);
      return true;
    }

    /** Reads the type of cell (r, c): what the layout gives it. */
    method KindAt(r: int, c: int) returns (kind: int)
      requires Valid() && 0 <= r < rows && 0 <= c < cols
      ensures kind == LayoutKind(Mines, rows, cols, r, c) && (kind == -1 <==> IsMineAt(Mines, cols, r, c))
    {
      kind := field[r, c].kind;
      LayoutKindRange(Mines, rows, cols, r, c);
    }

    /** The then-branch of the gate loop: the layout is frozen as it is. */
    method Freeze()
      requires Valid()
      modifies this`validFieldSet
      ensures Valid() && validFieldSet
    {
      validFieldSet := true;
    }

    /** The else-branch of the gate loop: the layout is replaced by `next`. */
    method Reshuffle(next: seq<int>)
      requires Valid() && !validFieldSet && IsLayout(next, rows, cols, numMines)
      modifies this, field
      ensures Valid() && !validFieldSet && Mines == next && SameStates(old(View), View) && LostMarks == old(LostMarks)
    {
      CountGridNone(View, ExploredSafe);
      ResetField(next);
    }

    /** Explores the unexplored cell (r, c) once the layout is frozen. A mine loses the
        game and shows every mine; otherwise the cell is counted and, when no mine is
        next to it, its unexplored neighbours are explored in turn. `pending` holds the
        empty cells whose neighbours the callers are still exploring. */
    method Uncover(r: int, c: int, ghost pending: set<Pos>) returns (safe: bool)
      requires Consistent() && validFieldSet && 0 <= r < rows && 0 <= c < cols
      requires View[r][c].state != Explored && ClosedExcept(View, pending)
      modifies this, field
      decreases CountGrid(View, Unexplored), 3
      ensures Consistent() && validFieldSet && Mines == old(Mines) && ClosedExcept(View, pending)
      ensures safe <==> old(View)[r][c].kind != -1
      ensures safe ==> (LostMarks == old(LostMarks) && GrewSafely(old(View), View) &&
                        View[r][c].state == Explored && LeastClosed(old(View), View, Mines, rows, cols, Pos(r, c)))
      ensures !safe ==> (LostMarks == old(LostMarks) + CountGrid(old(View), MarkedMine) &&
                         forall i, j :: 0 <= i < rows && 0 <= j < cols ==> View[i][j] == RevealedMine(old(View)[i][j]))
    {
      var kind := field[r, c].kind;
      if kind == -1 {
        ExploreMine(r, c, pending);
        return false;
      }
      ghost var v0: Grid := View;
      ExploreSafe(r, c, pending);
      if kind == 0 {
        ghost var v1: Grid := View;
        FloodAround(r, c, pending);
        GrewSafelyTrans(v0, v1, View);
        LeastClosedTrans(v0, v1, View, Mines, rows, cols, Pos(r, c));
      }
      return true;
    }

    /** Uncovering a mine: the cell is explored, then so is every other mine. The
        marked mines among them stay counted in minesFound. */
    method ExploreMine(r: int, c: int, ghost pending: set<Pos>)
      requires Consistent() && validFieldSet && 0 <= r < rows && 0 <= c < cols
      requires View[r][c].state != Explored && View[r][c].kind == -1 && ClosedExcept(View, pending)
      modifies this, field
      ensures Consistent() && validFieldSet && Mines == old(Mines) && ClosedExcept(View, pending)
      ensures LostMarks == old(LostMarks) + CountGrid(old(View), MarkedMine)
      ensures forall i, j :: 0 <= i < rows && 0 <= j < cols ==> View[i][j] == RevealedMine(old(View)[i][j])
    {
      ghost var v0: Grid := View;
      SetCell(r, c, field[r, c].(state := Explored));
      ghost var v1: Grid := View;
      RevealMines();
      forall i, j | 0 <= i < rows && 0 <= j < cols ensures View[i][j] == RevealedMine(v0[i][j]) {
        if i != r || j != c {
          assert v1[i][j] == v0[i][j];
        }
      }
      RevealCounts(v0, View, pending, Mines, rows, cols);
      BalancedAfterLoss(v0, View, Mines, rows, cols, numMines, minesFound, extraMarked, cellsExplored, LostMarks, r, c);
      LostMarks := LostMarks + CountGrid(v0, MarkedMine);
    }

    /** Uncovering a safe cell: it is explored and counted, and a mark on it is taken
        off the count of marked safe cells. */
    method ExploreSafe(r: int, c: int, ghost pending: set<Pos>)
      requires Consistent() && validFieldSet && 0 <= r < rows && 0 <= c < cols
      requires View[r][c].state != Explored && View[r][c].kind != -1 && ClosedExcept(View, pending)
      modifies this, field
      ensures Consistent() && validFieldSet && Mines == old(Mines) && LostMarks == old(LostMarks)
      ensures View == old(View)[r := old(View)[r][c := old(View)[r][c].(state := Explored)]]
      ensures ClosedExcept(View, pending + {Pos(r, c)})
      ensures View[r][c].kind != 0 ==> ClosedExcept(View, pending)
      ensures GrewSafely(old(View), View) && LeastClosed(old(View), View, Mines, rows, cols, Pos(r, c))
      ensures CountGrid(View, Unexplored) == CountGrid(old(View), Unexplored) - 1
    {
      var marked := field[r, c].state == Marked;
      ExploreOne(View, r, c, Mines, rows, cols, pending);
      BalancedAfterSafeExplore(View, Mines, rows, cols, numMines, minesFound, extraMarked, cellsExplored, LostMarks, r, c);
      SetCell(r, c, field[r, c].(state := Explored));
      if marked {
        extraMarked := extraMarked - 1;
      }
      cellsExplored := cellsExplored + 1;
    }

    /** The recursive part of a reveal: every unexplored neighbour of the explored empty
        cell (r, c) is explored, row by row. */
    method FloodAround(r: int, c: int, ghost pending: set<Pos>)
      requires Consistent() && validFieldSet && 0 <= r < rows && 0 <= c < cols
      requires View[r][c].state == Explored && View[r][c].kind == 0
      requires ClosedExcept(View, pending + {Pos(r, c)})
      modifies this, field
      decreases CountGrid(View, Unexplored) + 1, 2
      ensures Consistent() && validFieldSet && Mines == old(Mines) && LostMarks == old(LostMarks)
      ensures ClosedExcept(View, pending) && GrewSafely(old(View), View)
      ensures LeastClosed(old(View), View, Mines, rows, cols, Pos(r, c))
      ensures forall i, j :: Max(r - 1, 0) <= i <= Min(r + 1, rows - 1) && Max(c - 1, 0) <= j <= Min(c + 1, cols - 1) ==>
        View[i][j].state == Explored
    {
      ghost var v0: Grid := View;
      var nl, nr, nu, nd := Max(c - 1, 0), Min(c + 1, cols - 1), Max(r - 1, 0), Min(r + 1, rows - 1);
      for tr := nu to nd + 1
        invariant Consistent() && validFieldSet && Mines == old(Mines) && LostMarks == old(LostMarks)
        invariant View[r][c].state == Explored && View[r][c].kind == 0
        invariant ClosedExcept(View, pending + {Pos(r, c)})
        invariant GrewSafely(v0, View) && CountGrid(View, Unexplored) <= CountGrid(v0, Unexplored)
        invariant LeastClosed(v0, View, Mines, rows, cols, Pos(r, c))
        invariant forall i, j :: nu <= i < tr && nl <= j <= nr ==> View[i][j].state == Explored
      {
        ghost var vm: Grid := View;
        FloodRow(r, c, tr, nl, nr, pending);
        ExploredRowsGrow(vm, View, rows, cols, nu, tr, nl, nr);
        GrewSafelyTrans(v0, vm, View);
        LeastClosedTrans(v0, vm, View, Mines, rows, cols, Pos(r, c));
      }
      ClosePending(View, pending, r, c, rows, cols);
    }

    /** The inner loop of FloodAround: the neighbours of (r, c) in row tr, from column
        nl to column nr. */
    method FloodRow(r: int, c: int, tr: int, nl: int, nr: int, ghost pending: set<Pos>)
      requires Consistent() && validFieldSet && 0 <= r < rows && 0 <= c < cols
      requires 0 <= tr < rows && r - 1 <= tr <= r + 1 && nl == Max(c - 1, 0) && nr == Min(c + 1, cols - 1)
      requires View[r][c].state == Explored && View[r][c].kind == 0
      requires ClosedExcept(View, pending + {Pos(r, c)})
      modifies this, field
      decreases CountGrid(View, Unexplored) + 1, 1
      ensures Consistent() && validFieldSet && Mines == old(Mines) && LostMarks == old(LostMarks)
      ensures View[r][c].state == Explored && View[r][c].kind == 0
      ensures ClosedExcept(View, pending + {Pos(r, c)})
      ensures GrewSafely(old(View), View) && LeastClosed(old(View), View, Mines, rows, cols, Pos(r, c))
      ensures forall j :: nl <= j <= nr ==> View[tr][j].state == Explored
    {
      ghost var v0: Grid := View;
      for tc := nl to nr + 1
        invariant Consistent() && validFieldSet && Mines == old(Mines) && LostMarks == old(LostMarks)
        invariant View[r][c].state == Explored && View[r][c].kind == 0
        invariant ClosedExcept(View, pending + {Pos(r, c)})
        invariant GrewSafely(v0, View) && CountGrid(View, Unexplored) <= CountGrid(v0, Unexplored)
        invariant LeastClosed(v0, View, Mines, rows, cols, Pos(r, c))
        invariant forall j :: nl <= j < tc ==> View[tr][j].state == Explored
      {
        ghost var vm: Grid := View;
        VisitNeighbour(r, c, tr, tc, pending);
        ExploredRunGrows(vm, View, rows, cols, tr, nl, tc);
        GrewSafelyTrans(v0, vm, View);
        LeastClosedTrans(v0, vm, View, Mines, rows, cols, Pos(r, c));
      }
    }

    /** One step of FloodAround: the neighbour (tr, tc) of the explored empty cell (r, c)
        is explored unless it already is. */
    method VisitNeighbour(r: int, c: int, tr: int, tc: int, ghost pending: set<Pos>)
      requires Consistent() && validFieldSet && 0 <= r < rows && 0 <= c < cols
      requires 0 <= tr < rows && 0 <= tc < cols && Adjacent(r, c, tr, tc)
      requires View[r][c].state == Explored && View[r][c].kind == 0
      requires ClosedExcept(View, pending + {Pos(r, c)})
      modifies this, field
      decreases CountGrid(View, Unexplored) + 1, 0
      ensures Consistent() && validFieldSet && Mines == old(Mines) && LostMarks == old(LostMarks)
      ensures ClosedExcept(View, pending + {Pos(r, c)}) && View[tr][tc].state == Explored
      ensures GrewSafely(old(View), View) && LeastClosed(old(View), View, Mines, rows, cols, Pos(r, c))
    {
      if field[tr, tc].state != Explored {
        ghost var vm: Grid := View;
        EmptyCellHasNoMineNeighbour(Mines, rows, cols, r, c, tr, tc);
        var _ := Uncover(tr, tc, pending + {Pos(r, c)});
        LeastClosedNeighbour(vm, View, Mines, rows, cols, Pos(r, c), Pos(tr, tc));
      }
    }

    /** The loop of a lost game: every mine is turned Explored. */
    method RevealMines()
      requires Shape()
      modifies field, this`View
      ensures Shape()
      ensures forall r, c :: 0 <= r < rows && 0 <= c < cols ==> View[r][c] == RevealedMine(old(View)[r][c])
    {
      ghost var v0: Grid := View;
      for r := 0 to rows
        modifies field, this`View
        invariant Shape()
        invariant forall i, j :: 0 <= i < rows && 0 <= j < cols ==>
          View[i][j] == if i < r then RevealedMine(v0[i][j]) else v0[i][j]
      {
        for c := 0 to cols
          modifies field, this`View
          invariant Shape()
          invariant forall i, j :: 0 <= i < rows && 0 <= j < cols ==>
            View[i][j] == if i < r || (i == r && j < c) then RevealedMine(v0[i][j]) else v0[i][j]
        {
          if field[r, c].kind == -1 {
            SetCell(r, c, field[r, c].(state := Explored));
          }
        }
      }
    }
  }
}
