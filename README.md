# Minesweeper board-state engine, modelled in Dafny

This project models the board logic of a browser Minesweeper game
(`js/app.js`): mine placement by rejection sampling, the adjacent-mine counts,
the recursive flood-fill reveal (`mineCntTest`), the chorded reveal with its
wrong-flag marking (`quickOpen`), the flag toggle, and the win test. The
source keeps all of this in global variables. Here they are the fields of one
`Engine.Board` object:

- `height`, `width`, `numMines` and `mineIdxArray` (the mine flat indices
  `row * width + col`) are fixed for the life of a board;
- `mineMap` (-1 hidden, 0 opened, 1 flagged) and `mineCntMap` (adjacent-mine
  counts) are flat row-major arrays, indexed by the same flat index as
  `mineIdxArray`;
- `flagCnt`, `procCnt` and `gameResult` (0 playing, 1 lost, 2 won) are
  counters the methods update in place;
- `mines`, `unopened` and `flagged` are the scratch lists that
  `quickOpenSetup` fills and `quickOpen` drains. They hold `(row, col)` pairs
  where the source pushes two numbers per cell.

`Board.Valid()` is the board invariant:
- every count in `mineCntMap` is the number of mines adjacent to its cell;
- no opened cell is a mine;
- `procCnt` and `flagCnt` equal the number of opened and flagged cells.

Every state-changing method keeps `Valid()`.

Files:
- `grid.dfy` (module `Grid`): cells, flat indices, and the neighbour
  enumeration of `handleAdjacentCells`.
- `mines.dfy` (module `Mines`): the do-while placement loop, run over a
  supplied sequence of draws, and the count map of
  `generateMineCntMap`/`incrementMineCnt`.
- `cells.dfy` (module `Cells`): predicates on the sequence of cell states.
  They cover the counters, "only hidden cells get opened" (`Grows`), the
  closure of the flood fill (`Closed`) and its reach (`Reached`). `Reached`
  says that every newly opened cell is a start cell or is reached from one
  along a path of newly opened zero-count cells. The path is given as a
  ranking that decreases towards the start cells.
- `board.dfy` (module `Engine`): the `Board` class with `mineCntTest`,
  `quickOpen`, the flag toggle, `checkWiningCondition`, the guarded click entry
  points, and `generateMineMap`.

Behaviours of the code that the model keeps as they are:
- A mine count below 1 still places one mine, because the do-while runs its
  body once before its test. Such a board can never be won: the win test
  `numMines + procCnt === height * width` needs at least every cell opened,
  and the mine cell never is.
- `quickOpen` keeps revealing after it hits a mine, and then runs the win
  test. A loss can therefore be overwritten by a win.
- The flood fill is the direct recursion of `mineCntTest`. Its termination
  measure is the number of hidden cells.
- Out-of-range coordinates are not an error path. Every clicked cell comes
  from the id of a drawn table cell, so the click methods require an
  on-board cell.
- `generateMineMap` does not check its dimensions. A width of 0 makes
  `generateMineCntMap` throw a TypeError. A height of 0 or less, or a
  negative width, gives a board with no cells.

## Model

| member | source | states |
|---|---|---|
| Grid.NeighboursSpec | js/app.js:481-497 | handleAdjacentCells visits exactly the on-board cells at row and column offset in {-1,0,1} other than the centre, each once, so at most 8 |
| Grid.AroundSpec | js/app.js:482-487 | the nested offset loop with the centre skipped yields 8 distinct cells, exactly those at Chebyshev distance 1 |
| Grid.NeighbourIdxSpec | js/app.js:481-497 | as flat indices, the visited cells are exactly the cells adjacent to the centre, without repeats, at most 8 |
| Grid.FlatRowCol | js/app.js:81-82 | `floor(element / width)` and `element % width` recover the row and column of a flat index |
| Grid.Filled | js/app.js:422-438 | minusOnes/zeros: a board of n cells every one of which holds the given value |
| Mines.DedupSpec | js/app.js:96-100 | the rejection test keeps draws duplicate-free, and every drawn value is kept |
| Mines.GenerateMineIdx | js/app.js:92-101 | the placement loop over supplied draws succeeds exactly when they hold enough distinct values; it then returns the first max(numMines,1) distinct draws, each a possible value of `Math.floor(Math.random() * numCells)` |
| Mines.AdjacentMinesSpec | js/app.js:73-85 | a cell's count is the number of mines among its on-board neighbours, so 0..8 |
| Mines.GenerateMineCntMap | js/app.js:78-85 | starting from zeros and incrementing every neighbour of every mine leaves each cell holding its adjacent-mine count |
| Mines.IncrementNeighbours | js/app.js:83 | one mine adds 1 to exactly the cells adjacent to it and to no other cell |
| Mines.IncrementEach | js/app.js:494 | the callback loop adds 1 to each listed cell and leaves every other cell unchanged |
| Mines.IncrementMineCnt | js/app.js:73-75 | incrementMineCnt adds 1 to one cell of the count map and changes nothing else |
| Mines.ZeroCellNeighbours | js/app.js:152-158 | every neighbour of a zero-count cell is on the board and not a mine, and every adjacent cell is visited |
| Mines.SingleMineCount | js/app.js:73-85 | with a single mine, a cell's count is 1 exactly when the mine is adjacent to it, and 0 otherwise |
| Mines.OneByTwoCount | js/app.js:73-85 | on a 1-by-2 board with the mine at index 0, the other cell's count is 1 |
| Mines.CentreMineCounts | js/app.js:73-85 | on a 3-by-3 board with the mine in the centre, every other cell's count is 1 |
| Mines.MinesAmongMembers | js/app.js:165-167 | quickOpenSetup's mine list holds exactly the visited cells that are mines, whatever their state |
| Mines.NeighbourMinesCount | js/app.js:187-189 | the number of mines quickOpen collects around a cell equals that cell's count |
| Mines.NonMinesAmongMembers | js/app.js:199-206 | the cells marked wrong are exactly the recorded flags whose index is not a mine |
| Cells.WithStateMembers | js/app.js:168-174 | quickOpenSetup's unopened and flagged lists hold exactly the visited cells in state -1 and 1 respectively |
| Cells.ToggleKeeps | js/app.js:352-363 | the toggle, with flagCnt moved by +1 or -1, keeps flagCnt equal to the number of flags and leaves procCnt alone |
| Cells.SetKeeps | js/app.js:355-356 | swapping a cell between hidden and flagged keeps the counters equal to the number of cells in each state |
| Cells.OpenKeeps | js/app.js:146-148 | opening a hidden non-mine cell with procCnt + 1 keeps procCnt equal to the number of opened cells |
| Cells.GrowsFewerHidden | js/app.js:144-159 | once a hidden cell is opened, fewer cells are hidden; this is the termination measure of the recursion |
| Cells.RankedPath | js/app.js:152-159 | a ranking that decreases towards the start cells yields, for every newly opened cell, a path from a start cell through newly opened zero cells, each step to an adjacent cell |
| Cells.ReachedPaths | js/app.js:152-159 | every cell a reached fill opens lies at the end of such a path from a start cell |
| Cells.ReachedLink | js/app.js:158 | a fill reached from a neighbour of the zero cell x, appended to a fill reached from x, is reached from x |
| Cells.ReachedSub | js/app.js:190-193 | a fill reached from one recorded cell, appended to a fill reached from the recorded cells, is reached from the recorded cells |
| Cells.OpenedBound | js/app.js:441-446 | the opened cells and the mines together number at most all cells, and equal all cells exactly when every non-mine cell is opened |
| Engine.WinCondition | js/app.js:441-446 | `numMines + procCnt == height * width` holds exactly when numMines >= 1 and every non-mine cell is opened |
| Engine.GenerateMineMap | js/app.js:89-111 | with enough draws: a width of 0 throws a TypeError; a height of 0 or less or a negative width gives a board with no cells and the placed mines; otherwise a new board with max(numMines,1) distinct in-range mines from the draws, every cell hidden, correct counts, and all counters 0 |
| Engine.Board.constructor | js/app.js:104-109 | for positive dimensions: every cell hidden, counts derived from the mines, flagCnt, procCnt and gameResult reset to 0 |
| Engine.Board.CellClicked | js/app.js:459-461 | cellClicked holds exactly when the cell is opened or flagged |
| Engine.Board.CellOpened | js/app.js:465-467 | cellOpened holds exactly when the cell is opened |
| Engine.Board.MineCntTest | js/app.js:119-160 | on a non-hidden cell: no change; on a hidden mine: gameResult 1 and no cell changes; on a cell with a positive count: that cell alone is opened; on a zero cell: the fill opens only hidden non-mine cells, is closed (every neighbour of an opened zero cell is non-hidden) and every opened cell is reached from the clicked cell through opened zero cells; procCnt grows by the number of newly opened cells |
| Engine.Board.Open | js/app.js:146-148 | sets the cell to 0 and increments procCnt, keeping the board invariant |
| Engine.Board.OpenAround | js/app.js:157-159 | the cascade from a zero cell leaves every one of its neighbours non-hidden, keeps the fill closed, and every cell it opens is reached from that zero cell through opened zero cells |
| Engine.Board.RevealNeighbour | js/app.js:158 | one recursive call of the cascade reveals the next neighbour and keeps the fill closed and reached from the zero cell |
| Engine.Board.FillAround | js/app.js:481-497 | the handleAdjacentCells loop over the zero cell's neighbours leaves each non-hidden, keeps the fill closed, and keeps it reached from the zero cell |
| Engine.Board.CheckWinningCondition | js/app.js:441-446 | sets gameResult to 2 exactly when numMines + procCnt == height*width, otherwise changes nothing; that test means every non-mine cell is opened |
| Engine.Board.ToggleFlag | js/app.js:351-363 | -1 becomes 1 with flagCnt+1, 1 becomes -1 with flagCnt-1, an opened cell and procCnt are untouched |
| Engine.Board.QuickOpenSetup | js/app.js:164-175 | records the cell as a mine if it is one, and as unopened or flagged by its state |
| Engine.Board.SetupAround | js/app.js:184-187 | the three lists hold the mines, the hidden cells and the flags among the cell's neighbours |
| Engine.Board.SetupEach | js/app.js:164-175 | quickOpenSetup on each cell in turn leaves exactly the mines, the hidden cells and the flagged cells of the list, in order |
| Engine.Board.OpenUnopened | js/app.js:190-193 | runs mineCntTest on every recorded unopened cell, carrying on past mines; each non-mine ends opened, every opened cell is reached from a recorded cell through opened zero cells, and the game is lost exactly when one of the recorded cells is a mine |
| Engine.Board.OpenNext | js/app.js:191-192 | one splice-and-reveal step of that loop keeps its invariant, reach from the recorded cells included |
| Engine.Board.ChordReveal | js/app.js:189-194 | reveals only when the flag count is positive and equals the mine count around the cell, opening only cells reached from the recorded unopened ones; otherwise nothing changes |
| Engine.Board.RevealAround | js/app.js:184-194 | list set-up then the gated reveal: the game is lost exactly when the gate is open and a hidden neighbour is a mine |
| Engine.Board.MarkWrongFlags | js/app.js:199-207 | drains the flag list and returns exactly the recorded flags that are not mines |
| Engine.Board.QuickOpen | js/app.js:181-208 | gated chord reveal: with the gate closed nothing changes; with it open every hidden neighbour ends opened unless it is a mine, and every opened cell is reached from a hidden neighbour through opened zero cells; then the win test, which may overwrite a loss; after a loss, the wrong flags returned are exactly the flagged neighbours that are not mines |
| Engine.Board.LeftClick | js/app.js:279-320 | ignored once the game is over or when the cell is opened or flagged; otherwise mineCntTest then checkWiningCondition: a mine leaves the cells unchanged, a cell with a positive count is opened alone, a fill is closed and reached from the cell, and the resulting gameResult is stated |
| Engine.Board.RightClick | js/app.js:279-365 | ignored once the game is over; otherwise the right-button branch toggles the flag: -1 and 1 swap with flagCnt following, an opened cell stays |
| Engine.Board.ChordClick | js/app.js:286-303 | ignored once the game is over or unless the cell is opened; otherwise quickOpen, with its gate, its reveal of the hidden neighbours, the reach of the fill, the resulting gameResult and the wrong flags stated |
| Engine.Board.RightClickTwice | js/app.js:351-363 | two toggles on the same cell during play restore the board and flagCnt |
| Engine.ClickLastSafe | js/app.js:144-148 | a left click on the last hidden cell without a mine, when it has a positive count, opens it, adds 1 to procCnt and wins |
| Engine.OneByTwoWin | js/app.js:441-446 | on a 1-by-2 board with the mine at (0, 0), a left click on (0, 1) wins |

## Left out

- DOM effects are not modelled: jQuery cell painting, the result and
  flag-count displays, and the HTML of `makeGrid`. `QuickOpen` returns the
  cells it would mark with an X. No other change-set is returned.
- `Math.random()` is replaced by a supplied sequence of draws, each already a
  value of `Math.floor(Math.random() * h * w)`. Rejection sampling with an
  endless supply of draws needs an unbounded loop. The model instead reports
  `OutOfDraws` when the supplied draws run out.
- Mouse-button gesture tracking is not modelled (`mouseDownHandler`,
  `mouseOutHandler`, the button-down flags, `unFocus`, the context-menu
  suppression). The recognised gestures are the entry points `LeftClick`,
  `RightClick` and `ChordClick`.
- The timer is not modelled (`tsec`, `timeStart`, `timeCounter`). It is
  asynchronous browser scheduling.
- The `textColor` table and `strToRC` are not modelled. They only map counts
  to colours and element ids to cells.
- The form handler is not modelled. It parses with `Number(...)` and checks
  `numMines > height * width`, which becomes the requires
  `numMines <= h * w` of `GenerateMineMap`. It also overwrites `numMines`,
  `height` and `width` before that check, so a rejected submission leaves a
  new mine count and new dimensions beside an old board. A model board keeps
  its own mine count and dimensions, so this case does not arise in the
  model. Non-integer and NaN inputs from `Number(...)` are not modelled.
- Engine.GenerateMineMap: for a width of 0 it reports `TypeError` and
  returns no board. The globals the source has already overwritten before
  the throw are not modelled: the mine list, `mineMap`, and `mineCntMap`,
  which is already all zeros. `flagCnt`, `procCnt` and `gameResult` keep
  their old values there, since the reset after `generateMineCntMap` is
  never reached. For a board with no cells it returns only the placed mines,
  since no cell exists to click.
- Engine.Board.MineCntTest: exhaustion of the JavaScript call stack is not
  modelled. The fill recurses one call deeper per cell along its
  depth-first path (`mineCntTest` calls `handleAdjacentCells`, which calls
  `mineCntTest`), and board size is unbounded. On a large board with few
  mines the source can throw a RangeError partway through a cascade. It
  then leaves cells partly opened and `procCnt` partly counted, and skips
  the win test. The model's fill always completes.
- Engine.Board.constructor: it builds boards with positive dimensions only.
  The other dimensions are handled by `GenerateMineMap` without a board
  object.
- `mineMap` and `mineCntMap` are flat row-major arrays, not arrays of rows.
  `minusOnes`/`zeros` are modelled for the flat, two-dimensional case only.
