# Minesweeper board engine, modelled and verified in Dafny

This project models the board engine of a browser minesweeper game (Buscaminas, `script.js`). It then proves the rules the engine keeps.

The engine is a set of global variables changed in place by a few functions:

- The globals are `board`, `boardSize`, `minesCount`, `firstClick`, `gameOver` and `revealedCells`.
- `startGame` validates the size and deals a new board.
- `createBoard` and `placeMines` lay mines at random.
- `handleCellClick` makes the first click safe by redealing the board.
- `handleCellFlag` toggles a flag.
- `revealCell` and `revealSurroundingCells` run the flood fill, by mutual recursion.
- `getSurroundingMines` counts mined neighbours.
- `checkWinCondition` tests for a win.

The project has six modules:

- `Grid`: positions, the eight directions in the script's order, neighbourhoods, and counting facts about squares.
- `Board`: the board as a sequence of rows of `Cell(revealed, mine, flagged)` records, and the sets of revealed, mined and flagged squares.
  - It holds `createBoard` and `placeMines` as methods.
  - The random draw is a nondeterministic choice of a free square.
- `Play`: the globals as a value `State`, and every entry point as a function of that state.
  - `Reveal` and `Sweep` are mutually recursive, exactly as revealCell and revealSurroundingCells are.
  - They terminate because every reveal shrinks the set of hidden squares.
- `Flood`: the properties of the flood fill, proved by mutual induction along the same recursion.
  - It reveals no mine.
  - It completes: every zero square it reveals has all its neighbours revealed, flagged ones included.
  - It stops at the numbered squares: it reveals nothing outside any region that holds the clicked square and contains every neighbour of each zero square in it. With the completion property, what it reveals is exactly the zero squares connected to the clicked square and their border.
  - Every square it reveals, other than the one it started from, lies next to a zero square it revealed.
  - The counter grows by exactly the number of newly revealed squares.
  - The game ends only on a mine or when the counter crosses the number of safe squares.
- `Outcomes`: what each entry point leaves behind, stated against the invariant the game keeps.
  - The counter equals the number of revealed squares in every state the script reaches, and the first click is never on a mine.
  - While the stored mine count matches the board, no mine is revealed while the game runs, the counter never passes the number of safe squares, and the game ends exactly on a mine or once every safe square is revealed.
  - A start refused part-way through a game breaks that match (see "## Findings").
  - A negative mine count lays no mine, and such a game can be neither won nor lost.
  - Clicks and flags are ignored after the game is over.
  - Flagging twice is the identity.
  - A fresh game holds exactly the requested mines.
- `Engine`: class `Game` holds the globals as fields, and each script function is a method that updates them step by step.
  - Each method is proved to end in exactly the state the `Play` function gives.
  - So everything proved about `Play` holds of the running engine.

Three behaviours of the script are modelled as written:

- **startGame stores the mine count before the size check.** A start refused for a board smaller than 5x5 still changes `minesCount`, and nothing else. The board and the counter stay, so the win test then compares the counter with a number of safe squares the board does not have: the game can be won while safe squares are still hidden. `Play.Start` and `Engine.Game.StartGame` keep the script's order; `Play.CheckedStart` is the corrected order (see "## Findings").
- **revealCell runs the win check even after revealing a mine, and checks neither bounds nor flags.** A mine hit while exactly one safe square is hidden brings the counter to the number of safe squares, so the win test holds on the lost game (`Outcomes.LossMeetsWinTest`). The script then overwrites the loss message with the win message. The model's single `gameOver` flag does not tell a win from a loss. The cascade in revealSurroundingCells tests only `revealed`, so the flood fill reveals flagged squares and leaves their flag set.
- **The win check runs inside the cascade.** When the game ends part-way through, the cascade still finishes. While the stored mine count matches the board, whether the game is over depends only on which squares end up revealed (`Outcomes.RevealOutcome`). After a refused start the win test can fire at any level of the cascade. The model follows the script's order of directions exactly.

## Model

| member | source | states |
|---|---|---|
| Grid.Neighbours | script.js:155-165 | the neighbourhood of (x, y): exactly the squares on the board adjacent to it; Grid.VisitedAll proves it is what the neighbour loops visit |
| Grid.DirectionAdjacent | script.js:155-159 | every listed offset leads to a different, adjacent square, so (x, y) never counts itself |
| Grid.AdjacentListed | script.js:155-159 | every adjacent square is reached by one of the eight listed offsets |
| Grid.DirectionsDistinct | script.js:155-159 | no offset is listed twice, so no neighbour is visited twice |
| Grid.VisitedReach | script.js:162-170 | the first k offsets reach only neighbours, every in-bounds square they point at, and none the later offsets point at |
| Grid.VisitedAll | script.js:162-170 | all eight offsets together reach exactly the in-bounds neighbours |
| Grid.CellsCount | script.js:145 | a rows x cols board has exactly rows * cols squares |
| Grid.WinCountMeansAllSafe | script.js:144-152 | with no mine revealed, the revealed count is at most the number of safe squares, and equals it exactly when every safe square is revealed |
| Grid.EmptyBoardFloods | script.js:136-137 | on a board without mines a completed flood fill from one square covers the whole board |
| Board.PutSets | script.js:121-124 | setting one square changes only that square's membership in the revealed, mined and flagged sets |
| Board.ToggleFlag | script.js:109 | inverting the flag moves exactly that square in or out of the flagged squares, and changes no revealed or mined square |
| Board.FlagTwiceRestores | script.js:109 | inverting a square's flag twice gives back the board |
| Board.Blank | script.js:56-58 | the new board is rows x cols, with nothing revealed, flagged or mined |
| Board.FreeSquare | script.js:65-71 | while fewer mines than free squares are down, the random draw has a free square to find |
| Board.MineStep | script.js:68-70 | laying a mine on a free square adds exactly that square to the mines, and the count by one |
| Board.PlaceMines | script.js:63-73 | the loop ends with exactly the requested number of mines on distinct squares, none on the kept-clear square, nothing revealed or flagged |
| Board.CreateBoard | script.js:55-61 | createBoard returns a rows x cols board with exactly `mines` mines and nothing revealed or flagged |
| Grid.Direction | script.js:155-159 | defines the eight offsets in the order of the script's directions array, used by both neighbour loops (also script.js:176-180) |
| Board.Placed | script.js:63-73 | defines how many mines placeMines lays: the requested count, or none when it is negative, since the loop test fails at once |
| Play.Target | script.js:145-146 | defines totalNonMineCells: the number of squares minus the stored mine count |
| Play.MinedAt | script.js:162-166 | defines the test inside getSurroundingMines' callback: the square at the offset is on the board and holds a mine |
| Play.Ignored | script.js:93 | defines handleCellClick's early return: the square is revealed or flagged, or the game is over |
| Play.Redealt | script.js:95-98 | defines the board the first-click loop can settle on: a fresh rows x cols board with the stored mine count and the clicked square clear when the first click is on a mine, the current board otherwise |
| Play.CheckWin | script.js:144-152 | the win check changes only gameOver, and sets it exactly when the counter equals the number of safe squares |
| Play.SurroundingMines | script.js:160-172 | after k offsets the count lies between 0 and k; Flood.MinesAroundCount ties it to the mined neighbours |
| Play.Click | script.js:92-103 | handleCellClick keeps the sizes and the board's shape, and a click that is not ignored reveals the clicked square |
| Play.Flag | script.js:105-109 | handleCellFlag changes only the board, and never reveals a square or moves a mine |
| Play.Start | script.js:35-53 | startGame stores the requested mine count even when it refuses the board |
| Play.CheckedStart | script.js:35-53 | the corrected startGame keeps the stored mine count when it refuses the board |
| Play.Uncover | script.js:122-124 | marking a square revealed adds exactly it to the revealed squares and one to the counter, and changes nothing else |
| Play.Reveal | script.js:121-142 | revealCell keeps the board's shape and sizes and leaves p and every earlier revealed square revealed |
| Play.Sweep | script.js:175-191 | revealSurroundingCells keeps the board's shape and sizes and never hides a square |
| Flood.SurroundingMinesCounts | script.js:160-172 | after k offsets the count is the number of mined squares among those the offsets reach, at most k |
| Flood.MinesAroundCount | script.js:154-173 | getSurroundingMines is the number of mined in-bounds neighbours; it lies in 0..8 and is 0 exactly when no neighbour is mined |
| Flood.RevealFrame | script.js:121-142 | revealCell changes neither mines, flags, the mine count nor firstClick, and a finished game stays finished |
| Flood.SweepFrame | script.js:175-191 | the same for revealSurroundingCells |
| Flood.RevealCount | script.js:121-124 | revealCell grows the counter by exactly the number of newly revealed squares, at least one |
| Flood.UncoverCount | script.js:122-124 | revealing a hidden square adds one to the number of revealed squares |
| Flood.SweepCount | script.js:182-190 | revealSurroundingCells grows the counter by exactly the number of newly revealed squares |
| Flood.RevealSafe | script.js:129-138 | revealCell(p) reveals no mine other than p itself |
| Flood.SweepSafe | script.js:182-190 | the cascade around a square with no mined neighbour reveals no mine |
| Flood.RevealCloses | script.js:134-137 | after revealCell every newly revealed zero square has all its neighbours revealed, flagged ones included |
| Flood.SweepCloses | script.js:182-190 | the cascade reveals every in-bounds neighbour its offsets reach and completes the flood fill |
| Flood.RevealLeast | script.js:129-138 | revealCell(p) reveals nothing outside any region that holds p and every neighbour of each of its zero squares, so the fill stops at the numbered squares bordering the zero region connected to p |
| Flood.SweepLeast | script.js:182-190 | the cascade around p stays inside any such region that holds p's neighbours |
| Grid.ZeroClosedGrows | script.js:182-190 | a region the fill cannot leave stays one as more squares are revealed |
| Flood.RevealSpreads | script.js:129-138 | every square revealCell(p) reveals other than p lies next to a zero square it revealed, derived from Flood.RevealCloses and Flood.RevealLeast |
| Flood.RevealEnds | script.js:129-141 | revealing a mine ends the game, reaching the target ends it, and the game ends only on a mine or when the counter crosses the target |
| Flood.UncoveredZero | script.js:134-137 | a safe square whose count is 0 starts the flood fill: neither it nor any neighbour is mined |
| Flood.ZeroSweepEnds | script.js:136-141 | the cascade from a zero square keeps the target, never lowers the counter, and ends the game only when the counter crosses the target |
| Flood.SweepEnds | script.js:182-190 | the same, direction by direction |
| Outcomes.RevealOutcome | script.js:121-152 | on a game in progress, revealCell keeps the invariant; the game ends exactly when p is a mine or every safe square is revealed |
| Outcomes.ClickKeepsGood | script.js:92-103 | in any state the script reaches, a click that is not ignored keeps the counter equal to the revealed squares, ends the first move, and never lands on a mine when it is the first click |
| Outcomes.ClickOutcome | script.js:92-103 | an ignored click changes nothing; otherwise the first move is over, a first click never hits a mine, the mine count is exact, the counter is at most the number of safe squares, and the game ends exactly on a mine or a full clear |
| Outcomes.FlagOutcome | script.js:105-109 | a flag on a revealed square or after game over changes nothing; otherwise exactly that square's flag is inverted |
| Outcomes.FlagTwice | script.js:105-109 | handleCellFlag twice on the same square restores the whole state |
| Outcomes.OverIsFinal | script.js:92-152 | once the game is over, clicks and flags change nothing and revealCell keeps it over; only startGame clears it |
| Outcomes.StartOutcome | script.js:35-53 | a refused start changes only the mine count; otherwise a new game waiting for its first click with exactly the requested mines (none for a negative count), nothing revealed or flagged, counter 0, in progress when 0 <= mines < rows * cols |
| Outcomes.NegativeMinesNeverEnd | script.js:92-152 | with a negative mine count and no mine on the board, no click ends the game: it is neither lost nor won |
| Outcomes.RefusedStartEndsEarly | script.js:35-44 | as written, a refused start with a mine count one short of the win lets a click on a hidden, unflagged, numbered safe square end the game while another safe square is hidden |
| Outcomes.LossMeetsWinTest | script.js:121-152 | a mine revealed with exactly one safe square hidden ends the game with the counter equal to the number of safe squares, so the win test holds too |
| Outcomes.CheckedStartOutcome | script.js:35-53 | with the count stored after the size check, a refused start changes nothing and keeps a game in progress in progress; an accepted one starts a game in progress |
| Outcomes.EmptyBoardWinsAtOnce | script.js:92-152 | with no mines the first click reveals every square and wins |
| Engine.Game.constructor | script.js:1-6 | the globals start empty, waiting for a first click |
| Engine.Game.StartGame | script.js:35-53 | ends in the state Play.Start gives, on a freshly dealt board |
| Engine.Game.HandleCellClick | script.js:92-103 | ends in the state Play.Click gives, on the board the first-click loop settles on |
| Engine.Game.HandleCellFlag | script.js:105-109 | ends in the state Play.Flag gives |
| Engine.Game.RevealCell | script.js:121-142 | ends in the state Play.Reveal gives |
| Engine.Game.CheckWinCondition | script.js:144-152 | ends in the state Play.CheckWin gives: game over once the counter equals rows * cols - minesCount |
| Engine.Game.GetSurroundingMines | script.js:154-173 | returns the number of mined in-bounds neighbours, in 0..8 |
| Engine.Game.RevealSurroundingCells | script.js:175-191 | ends in the state Play.Sweep gives after all eight directions |
| Engine.Game.RevealNeighbour | script.js:182-190 | one call of the forEach callback takes the cascade from k directions to k + 1 |

## Findings

| source | as written | input that shows it | evidently intended | confidence | as-written member | corrected member |
|---|---|---|---|---|---|---|
| script.js:38-44 | startGame stores minesCount before it refuses a board smaller than 5x5, so a refused start keeps the board and the counter but changes the number of safe squares the win test expects | a 5x5 game with one mine at (0,0) and only (0,1) revealed; startGame refused for a 3x3 board with 23 mines; a click on (1,0) ends the game as won while (4,4) and 21 other safe squares are hidden | a refused start leaves the game untouched, so it still ends only on a mine or once every safe square is revealed (proved of the corrected order in Outcomes.CheckedStartOutcome) | not executed; high | Outcomes.RefusedStartEndsEarly | Play.CheckedStart |

## Left out

- Everything on the page is out of scope:
  - drawBoard;
  - the square elements' classes and texts;
  - `message.innerText` and `alert`;
  - the `document.getElementById` lookups;
  - the event-listener wiring;
  - the difficulty table and its handler.
- parseInt of the form fields is not modelled: startGame takes rows, cols and mines as integers.
- Math.random is replaced by a nondeterministic choice of a free square (`:|`). No distribution or uniformity is modelled.
- Each rejection loop is modelled by its outcome, not by its draws:
  - In placeMines, a rejected draw changes nothing, so only the accepted draws are made.
  - The first-click redeal loop in handleCellClick becomes a single deal that keeps the clicked square clear.
- Engine.Game.HandleCellClick: describes the redeal loop by the board it ends on, a ghost out-parameter.
  - The script may discard any number of boards first; the model does not count them.
- Engine.Game.StartGame, Engine.Game.HandleCellClick, Board.PlaceMines, Board.CreateBoard: each requires at most as many mines as there are free squares.
  - The script never checks this, and its mine-laying loops never end otherwise.
- The board is a value (a sequence of rows of records) that the methods reassign, not JavaScript arrays of shared cell objects.
  - `const cell = board[x][y]` followed by a write is modelled as writing the updated record back.
  - Aliasing of cell objects is therefore not modelled; the script never aliases two squares.
- Outcomes.StartOutcome: a board with as many mines as squares is not called in progress, since its first click never returns (the redeal loop above).
- Play.Click: states only the sizes and the clicked square; the first-move, mine and counter facts are in Outcomes.ClickKeepsGood and Outcomes.ClickOutcome.
- The JavaScript call stack is not modelled. Each zero square the flood fill reveals adds several nested calls: revealCell, revealSurroundingCells, forEach and its callback.
  - On a large board with few mines the chain can approach rows * cols squares, and the script may then stop with a RangeError part-way through the cascade.
  - If that happens, only part of the board is revealed, gameOver stays false, and the pending win checks never run.
  - The model lets every recursion finish. So the flood-fill results hold only for reveals whose recursion completes: Flood.RevealCloses, Flood.RevealLeast, Outcomes.RevealOutcome, Outcomes.ClickOutcome and Outcomes.EmptyBoardWinsAtOnce.
- JavaScript numbers are doubles; the model uses unbounded integers. The counts involved are small whole numbers, so no rounding can occur.
