# Minesweeper engine in Dafny

This project models the game engine of a terminal Minesweeper: the `MineSweeper` class in
`Minesweeper/task/src/minesweeper/Main.kt`. The engine keeps a `rows` x `cols` board of cells.
Each cell has a *type* (-1 for a mine, otherwise the number of mines around it) and a *state*
(`Default`, `Marked` or `Explored`). Beside the board it keeps three counters:
- `minesFound`: marked mines;
- `extraMarked`: marked cells that are not mines;
- `cellsExplored`: explored cells that are not mines.

A flag, `validFieldSet`, freezes the mine layout after the first reveal. The engine
lays out the mines, toggles marks, reveals cells with a flood fill over empty cells, and
answers whether the game is won.

The model is written the way the engine is: `Game.MineSweeper` is a class over an
`array2<Cell>` with the same counters and flag. Its methods update the board in place with
the source's loops, and its recursion goes through the neighbours of an empty cell. A ghost
copy of the board as a value (`View`) is kept in step with the array. The class invariant
`Valid()` ties the counters to the board, the types to the layout, and the explored region
to the flood-fill closure. Each method is proved against functions and predicates on such
boards, and what those say is proved in lemmas:
- `Cells`: cells, boards and counting;
- `Layout`: mine layouts and neighbour counts;
- `Marking`: toggling a mark;
- `Flood`: what a reveal explores;
- `Win`: the two win conditions;
- `Bookkeeping`: how every move keeps the counters right.

The random layouts are inputs:
- the constructor takes the positions of the first layout;
- `ExploreCell` takes the sequence of layouts that the shuffles of the relayout loop
  would produce.

Mine positions are flat indices `0 until rows * cols`, distinct and `numMines` of them, as
`shuffled().take(numMines)` yields them.

## Model

| member | source | states |
|---|---|---|
| Game.MineSweeper.constructor | Minesweeper/task/src/minesweeper/Main.kt:21-26 | a new game is valid, has the given size and layout, has every cell Default, has all counters 0, and has the layout not yet frozen |
| Cells.BlankFacts | Minesweeper/task/src/minesweeper/Main.kt:22-24 | a freshly allocated board has no explored and no marked cell |
| Game.MineSweeper.ResetField | Minesweeper/task/src/minesweeper/Main.kt:28-78 | relaying the mines keeps every cell state, gives every cell the type the new layout gives it, and leaves both mark counters equal to the counts of marked mines and marked safe cells; counters that were 0 stay 0 |
| Game.MineSweeper.ClearTypes | Minesweeper/task/src/minesweeper/Main.kt:29-33 | every type becomes 0; no state changes |
| Game.MineSweeper.PlaceMines | Minesweeper/task/src/minesweeper/Main.kt:35-40 | exactly the cells at the given positions get type -1, all others keep type 0; no state changes |
| Game.MineSweeper.CountNeighbours | Minesweeper/task/src/minesweeper/Main.kt:44-62 | every non-mine cell gets the number of mines in its 3x3 block clipped at the edges; mines stay -1; no state changes |
| Game.MineSweeper.MinesAround | Minesweeper/task/src/minesweeper/Main.kt:47-56 | the nested loop counts exactly the mines of the layout in the clipped 3x3 block around (r, c) |
| Game.MineSweeper.RecountMarks | Minesweeper/task/src/minesweeper/Main.kt:64-77 | after the rescan, minesFound is the number of marked mines and extraMarked the number of marked safe cells |
| Layout.DecomposeBijective | Minesweeper/task/src/minesweeper/Main.kt:35-40 | row-major decomposition maps each position of the board to a cell in range, and is the only position mapping to that cell |
| Layout.SourceDecomposeSquare | Minesweeper/task/src/minesweeper/Main.kt:37-38 | on a square board, such as the 9x9 board the game is played on, the decomposition as written is the row-major one |
| Layout.LayoutKindRange | Minesweeper/task/src/minesweeper/Main.kt:44-62 | a cell's type is -1 exactly on the layout's mines and otherwise lies in 0..8 |
| Layout.LayoutMineCount | Minesweeper/task/src/minesweeper/Main.kt:35-40 | a board laid out from a layout of numMines distinct positions has exactly numMines mine cells |
| Layout.EmptyCellHasNoMineNeighbour | Minesweeper/task/src/minesweeper/Main.kt:158-170 | no in-range neighbour of a type-0 cell is a mine, so the flood fill never explores a mine |
| Bookkeeping.BalancedAfterRelayout | Minesweeper/task/src/minesweeper/Main.kt:64-77 | after a relayout of an unexplored board with the marks recounted, the counters balance with nothing explored |
| Flood.RelayoutFacts | Minesweeper/task/src/minesweeper/Main.kt:28-78 | a relayout of an unexplored board leaves it unexplored, and leaves an unmarked board unmarked |
| Game.MineSweeper.Finished | Minesweeper/task/src/minesweeper/Main.kt:112-117 | a side-effect-free query; while no game has been lost it is true exactly when every safe cell is explored or the marked cells are exactly the mines |
| Win.WinConditions | Minesweeper/task/src/minesweeper/Main.kt:112-117 | at most numMines mines are marked; numMines marked mines with no marked safe cell holds iff the marks are exactly the mines; rows*cols-numMines explored safe cells holds iff every safe cell is explored |
| Game.MineSweeper.MarkCell | Minesweeper/task/src/minesweeper/Main.kt:119-132 | the board becomes the toggled board; the class invariant holds again, so each counter still counts its kind of mark; the layout, the flag and cellsExplored are unchanged |
| Marking.Toggled | Minesweeper/task/src/minesweeper/Main.kt:123-131 | toggling never changes a cell's type |
| Marking.ToggleCounts | Minesweeper/task/src/minesweeper/Main.kt:119-132 | on an explored cell nothing changes; otherwise exactly one of the marked-mine and marked-safe counts moves, by +1 when the cell becomes Marked and by -1 when it stops being Marked, chosen by whether the cell is a mine |
| Marking.ToggleTwice | Minesweeper/task/src/minesweeper/Main.kt:119-132 | toggling the same cell twice restores the board, and with it both counters |
| Marking.ToggleKeepsBoard | Minesweeper/task/src/minesweeper/Main.kt:119-132 | toggling keeps the layout, keeps an unexplored board unexplored, keeps a closed board closed, and keeps a board whose mines are all explored so |
| Game.MineSweeper.ExploreCell | Minesweeper/task/src/minesweeper/Main.kt:134-172 | an explored target returns true and changes nothing; otherwise the layout ends up frozen with the target explored, and the result is false exactly when the target is a mine. The first reveal never loses: it keeps the layout when the target is safe in it, and otherwise plays on the first of the supplied layouts in which the target is safe, after every earlier one put a mine on it; a layout frozen before is kept. A safe reveal only turns non-mine cells Explored, and everything it explores lies in every flood-closed set holding the target and the cells explored before; the board is closed again. A loss explores every mine and changes nothing else |
| Game.MineSweeper.FreezeLayout | Minesweeper/task/src/minesweeper/Main.kt:137-141 | the gate loop, entered while the layout is not frozen (the source's `while` tests the flag first), ends with the layout frozen, every cell state kept and no mine on the target; the board is untouched when the target was safe, and otherwise the layout is the first of `layouts` that makes the target safe, every earlier one having put a mine on it |
| Game.MineSweeper.GateStep | Minesweeper/task/src/minesweeper/Main.kt:138-140 | one pass of the gate loop freezes the layout exactly when the target is not a mine, leaving the board untouched, and otherwise lays out the next layout without freezing it |
| Game.MineSweeper.KindAt | Minesweeper/task/src/minesweeper/Main.kt:138 | the type read is the layout's type for the cell, and it is -1 exactly on a mine |
| Game.MineSweeper.Freeze | Minesweeper/task/src/minesweeper/Main.kt:139 | setting the flag keeps the class invariant |
| Game.MineSweeper.Reshuffle | Minesweeper/task/src/minesweeper/Main.kt:140 | relaying an unfrozen board keeps the invariant and every cell state and installs the new layout |
| Layout.GateTrailStep | Minesweeper/task/src/minesweeper/Main.kt:137-141 | a reshuffle taken because the target is a mine extends the record of layouts tried, all of which put a mine on the target |
| Layout.GateTrailEnd | Minesweeper/task/src/minesweeper/Main.kt:137-141 | when the gate stops, the layout is the starting one if the target was safe in it, and otherwise the first supplied layout that makes the target safe |
| Game.MineSweeper.Uncover | Minesweeper/task/src/minesweeper/Main.kt:142-171 | the recursive reveal of an unexplored cell after the gate returns false exactly on a mine; a safe reveal grows the explored region safely and minimally, keeps the counters balanced, and keeps the closure invariant |
| Game.MineSweeper.ExploreMine | Minesweeper/task/src/minesweeper/Main.kt:144-155 | a loss turns every mine Explored and leaves every other cell as it was; the marked mines it explored join `LostMarks`, so the counters still balance |
| Game.MineSweeper.RevealMines | Minesweeper/task/src/minesweeper/Main.kt:148-154 | the loop turns exactly the mines Explored and leaves every other cell unchanged |
| Flood.RevealedMine | Minesweeper/task/src/minesweeper/Main.kt:150-152 | revealing keeps a cell's type and either explores it or leaves it as it was |
| Flood.RevealCounts | Minesweeper/task/src/minesweeper/Main.kt:147-155 | after all mines are revealed no mine is still marked, the marked-safe and explored-safe counts are unchanged, and the layout and the closure invariant are kept |
| Bookkeeping.BalancedAfterLoss | Minesweeper/task/src/minesweeper/Main.kt:147-155 | an unexplored mine shows that no game was lost before; after the loss the counters still balance, with the marked mines that became Explored still counted in minesFound |
| Bookkeeping.MinesFoundBound | Minesweeper/task/src/minesweeper/Main.kt:10-13 | the balance of the counters keeps minesFound between 0 and numMines, also after a loss |
| Game.MineSweeper.MinesFoundBound | Minesweeper/task/src/minesweeper/Main.kt:112-117 | in every valid state 0 <= minesFound <= numMines, also after a lost game |
| Game.MineSweeper.ExploreSafe | Minesweeper/task/src/minesweeper/Main.kt:143-157 | a safe cell becomes Explored and nothing else changes; cellsExplored grows by one and extraMarked drops by one if the cell was marked; one cell fewer is unexplored |
| Flood.ExploreOne | Minesweeper/task/src/minesweeper/Main.kt:142-146 | exploring one cell keeps the layout, lowers the unexplored count by one, grows the board safely when the cell is safe, and keeps the board closed once the cell is not empty |
| Flood.ExploreOneCounts | Minesweeper/task/src/minesweeper/Main.kt:143-157 | exploring a safe cell adds one explored safe cell, removes one marked safe cell if it was marked, and leaves the marked mines alone |
| Bookkeeping.BalancedAfterSafeExplore | Minesweeper/task/src/minesweeper/Main.kt:143-157 | the counters balance again after the decrement of extraMarked and the increment of cellsExplored |
| Game.MineSweeper.FloodAround | Minesweeper/task/src/minesweeper/Main.kt:158-170 | after the neighbour loops of an explored empty cell, every cell of its 3x3 block clipped at the edges is explored, the board is closed, and the growth is safe and minimal |
| Game.MineSweeper.FloodRow | Minesweeper/task/src/minesweeper/Main.kt:164-168 | one row of the neighbour loop leaves every neighbour in that row explored |
| Game.MineSweeper.VisitNeighbour | Minesweeper/task/src/minesweeper/Main.kt:165-167 | an unexplored neighbour of an empty cell is revealed recursively, and what that explores stays within every flood-closed set holding the empty cell |
| Flood.LeastClosedNeighbour | Minesweeper/task/src/minesweeper/Main.kt:163-169 | what a reveal from a neighbour of an empty cell explores lies within every flood-closed set holding the empty cell |
| Flood.LeastClosedSameStates | Minesweeper/task/src/minesweeper/Main.kt:137-141 | a relayout that keeps every state does not change what counts as the flood's least closed region |
| Flood.GrewSafelyTrans | Minesweeper/task/src/minesweeper/Main.kt:163-169 | successive safe reveals compose, and no reveal adds an unexplored cell |
| Flood.ClosedExceptGrow | Minesweeper/task/src/minesweeper/Main.kt:158-170 | turning cells Explored keeps the board closed as long as each new empty cell is still pending |
| Flood.ClosePending | Minesweeper/task/src/minesweeper/Main.kt:163-169 | once all neighbours of a pending empty cell are explored, it need not stay pending |
| Flood.StatesGrewSafelyAfter | Minesweeper/task/src/minesweeper/Main.kt:137-157 | a relayout followed by a safe reveal only turns non-mine cells Explored |

## Left out

- `printField` (Main.kt:80-109) and `main` (Main.kt:176-207) are terminal I/O; they are not modelled.
- Randomness: `(0 until rows * cols).shuffled().take(numMines)` becomes the `mines` parameter of the constructor and the `layouts` parameter of `ExploreCell`.
- Game.MineSweeper.ExploreCell: requires that the current layout, or one of the supplied `layouts`, leaves the target safe. The source's regenerate loop ends only with probability 1, and never when every cell is a mine.
- Game.MineSweeper.constructor: requires a layout of exactly `numMines` distinct positions, so `numMines <= rows * cols`. With more mines than cells, the source's `take` returns fewer positions and the counters no longer match `numMines`. `numMines` is a `nat`: for a negative count, Kotlin's `take` throws an `IllegalArgumentException`, and the model does not describe that failure.
- Game.MineSweeper.MarkCell and Game.MineSweeper.ExploreCell: require `1 <= x <= cols` and `1 <= y <= rows`. The source throws an index-out-of-bounds exception outside that range.
- Game.MineSweeper.Finished: states the board meaning of the result only while no game has been lost. After a loss, `minesFound` still counts the marked mines the loss turned Explored (ghost `LostMarks`), so the counters no longer describe the board.
- Kotlin `Int` is 32-bit. The counters stay within `rows * cols`, and the overflow of `rows * cols` itself is not modelled.
- The recursion depth of the flood fill (a stack overflow on very large boards) is not modelled.
- Mine placement uses the row-major decomposition `pos / cols`, not the source's `pos / rows`, so rectangular boards work (see Findings). On the square board that `main` uses, both agree (`Layout.SourceDecomposeSquare`).
- The source sets the target Explored before it tests the type, and decrements `extraMarked` after that. The model tests the type first (`Uncover`) and then applies the same updates (`ExploreMine`, `ExploreSafe`); the final state is the same.
- `resetField` and `exploreCell` are each split into several methods, one per loop or phase, with the same statements, reordered only as the line above says.

## Findings

| source | as written | input that shows it | evidently intended | confidence | as-written member | corrected member |
|---|---|---|---|---|---|---|
| Minesweeper/task/src/minesweeper/Main.kt:37 | the row of a mine position is `pos / rows` | rows = 2, cols = 3, pos = 4: row 2 is outside the 2-row board (index out of bounds) | row `pos / cols`, column `pos % cols` | not executed | Layout.SourceDecomposeLeavesBoard | Layout.DecomposeBijective |
| Minesweeper/task/src/minesweeper/Main.kt:37 | the row of a mine position is `pos / rows` | rows = 3, cols = 2, positions 0 and 2 both land on cell (0, 0), so the board gets fewer mines than `numMines` | row `pos / cols`, column `pos % cols` | not executed | Layout.SourceDecomposeCollides | Layout.DecomposeBijective |
