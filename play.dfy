/**
 * The rules of script.js as functions on the game's global state: what
 * startGame, handleCellClick, handleCellFlag, revealCell,
 * revealSurroundingCells and checkWinCondition leave behind, written as
 * values. The class in module Engine runs the same steps on fields and
 * is proved to end in exactly these states; the properties of the game
 * are proved here, once, about the functions.
 */
module Play {
  import opened Grid
  import opened Board

  /** The script's globals: board, boardSize, minesCount, firstClick, gameOver, revealedCells. */
  datatype State = State(board: Board, rows: nat, cols: nat, minesCount: int,
                         firstClick: bool, gameOver: bool, revealedCells: int)

  /** The squares still hidden: the flood fill removes at least one per reveal. */
  ghost function Hidden(s: State): set<Pos> {
    Cells(s.rows, s.cols) - RevealedOf(s.board)
  }

  /**
   * checkWinCondition's totalNonMineCells: the number of squares (rows * cols,
   * by Grid.CellsCount) minus the requested mines.
   */
  function Target(s: State): int {
    |Cells(s.rows, s.cols)| - s.minesCount
  }

  /** checkWinCondition: the game ends once the counter reaches the number of safe squares. */
  function CheckWin(s: State): (r: State)
    ensures r == s.(gameOver := r.gameOver)
    ensures r.gameOver <==> s.gameOver || s.revealedCells == Target(s)
  {
    if s.revealedCells == Target(s) then s.(gameOver := true) else s
  }

  /** The square in direction i from p is on the board and holds a mine. */
  predicate MinedAt(s: State, p: Pos, i: int)
    requires Shaped(s.board, s.rows, s.cols) && 0 <= i < 8
  {
    var q := Shift(p, Direction(i));
    InGrid(q, s.rows, s.cols) && s.board[q.0][q.1].mine
  }

  /** getSurroundingMines(p) after its first k directions. */
  function SurroundingMines(s: State, p: Pos, k: nat): (n: int)
    requires Shaped(s.board, s.rows, s.cols) && k <= 8
    ensures 0 <= n <= k
  {
    if k == 0 then 0
    else SurroundingMines(s, p, k - 1) + if MinedAt(s, p, k - 1) then 1 else 0
  }

  /**
   * revealCell(p): reveal p and count it; a mine ends the game, a square with
   * no mine around it reveals its hidden neighbours in the script's order;
   * then the win check runs.
   */
  ghost function Reveal(s: State, p: Pos): (r: State)
    requires Shaped(s.board, s.rows, s.cols) && InGrid(p, s.rows, s.cols)
    requires !s.board[p.0][p.1].revealed
    ensures Shaped(r.board, r.rows, r.cols)
    ensures r.rows == s.rows && r.cols == s.cols
    ensures RevealedOf(s.board) + {p} <= RevealedOf(r.board)
    decreases Hidden(s), 1
  {
    var s1 := Uncover(s, p);
    var s2 :=
      if s.board[p.0][p.1].mine then s1.(gameOver := true)
      else if SurroundingMines(s1, p, 8) == 0 then Sweep(s1, p, 8)
      else s1;
    CheckWin(s2)
  }

  /** The first two statements of revealCell: the square is marked revealed and counted. */
  function Uncover(s: State, p: Pos): (r: State)
    requires Shaped(s.board, s.rows, s.cols) && InGrid(p, s.rows, s.cols)
    ensures Shaped(r.board, r.rows, r.cols)
    ensures r.rows == s.rows && r.cols == s.cols && r.minesCount == s.minesCount
    ensures r.firstClick == s.firstClick && r.gameOver == s.gameOver
    ensures r.revealedCells == s.revealedCells + 1
    ensures RevealedOf(r.board) == RevealedOf(s.board) + {p}
    ensures MinesOf(r.board) == MinesOf(s.board) && FlaggedOf(r.board) == FlaggedOf(s.board)
  {
    var cell := s.board[p.0][p.1];
    PutSets(s.board, p, cell.(revealed := true));
    s.(board := Put(s.board, p, cell.(revealed := true)), revealedCells := s.revealedCells + 1)
  }

  /**
   * revealSurroundingCells(p), after its first k directions: each in-bounds
   * neighbour that is still hidden when its turn comes is revealed.
   */
  ghost function Sweep(s: State, p: Pos, k: nat): (r: State)
    requires Shaped(s.board, s.rows, s.cols) && k <= 8
    ensures Shaped(r.board, r.rows, r.cols)
    ensures r.rows == s.rows && r.cols == s.cols
    ensures RevealedOf(s.board) <= RevealedOf(r.board)
    decreases Hidden(s), 2, k
  {
    if k == 0 then s
    else
      var t := Sweep(s, p, k - 1);
      var q := Shift(p, Direction(k - 1));
      if InGrid(q, t.rows, t.cols) && !t.board[q.0][q.1].revealed then Reveal(t, q) else t
  }

  /** handleCellClick returns at once on a revealed or flagged square and once the game is over. */
  predicate Ignored(s: State, p: Pos)
    requires Shaped(s.board, s.rows, s.cols) && InGrid(p, s.rows, s.cols)
  {
    s.board[p.0][p.1].revealed || s.board[p.0][p.1].flagged || s.gameOver
  }

  /**
   * The board a click reveals on: a new one, dealt with the clicked square
   * clear, when the first click lands on a mine; the current one otherwise.
   */
  ghost predicate Redealt(s: State, p: Pos, dealt: Board)
    requires Shaped(s.board, s.rows, s.cols) && InGrid(p, s.rows, s.cols)
  {
    if s.firstClick && s.board[p.0][p.1].mine && !Ignored(s, p)
    then Dealt(dealt, s.rows, s.cols, s.minesCount, {p})
    else dealt == s.board
  }

  /** handleCellClick(p), given the board the first-click loop settles on. */
  ghost function Click(s: State, p: Pos, dealt: Board): (r: State)
    requires Shaped(s.board, s.rows, s.cols) && InGrid(p, s.rows, s.cols)
    requires Redealt(s, p, dealt)
    ensures Shaped(r.board, r.rows, r.cols) && r.rows == s.rows && r.cols == s.cols
    ensures !Ignored(s, p) ==> p in RevealedOf(r.board)
  {
    if Ignored(s, p) then s
    else if s.firstClick then Reveal(s.(board := dealt, firstClick := false), p)
    else Reveal(s, p)
  }

  /** handleCellFlag(p): invert the flag of a hidden square while the game runs. */
  function Flag(s: State, p: Pos): (r: State)
    requires Shaped(s.board, s.rows, s.cols) && InGrid(p, s.rows, s.cols)
    ensures r == s.(board := r.board)
    ensures RevealedOf(r.board) == RevealedOf(s.board) && MinesOf(r.board) == MinesOf(s.board)
  {
    if s.board[p.0][p.1].revealed || s.gameOver then s
    else s.(board := ToggleFlag(s.board, p))
  }

  /**
   * startGame with the parsed inputs: the mine count is stored first; a board
   * smaller than 5x5 is then refused; otherwise a fresh game on `dealt`.
   */
  function Start(s: State, rows: int, cols: int, mines: int, dealt: Board): (r: State)
    ensures r.minesCount == mines
  {
    if rows < 5 || cols < 5 then s.(minesCount := mines)
    else State(dealt, rows, cols, mines, true, false, 0)
  }

  /**
   * startGame with the mine count stored only once the size is accepted: a
   * refused start leaves the game exactly as it was.
   */
  function CheckedStart(s: State, rows: int, cols: int, mines: int, dealt: Board): (r: State)
    ensures r.minesCount == if rows < 5 || cols < 5 then s.minesCount else mines
  {
    if rows < 5 || cols < 5 then s
    else State(dealt, rows, cols, mines, true, false, 0)
  }

  /**
   * The invariant the script keeps: a rows x cols board, a counter equal to
   * the number of revealed squares, and nothing revealed before the first click.
   */
  ghost predicate Good(s: State) {
    && Shaped(s.board, s.rows, s.cols)
    && s.revealedCells == |RevealedOf(s.board)|
    && (s.firstClick ==> s.revealedCells == 0)
  }

  /**
   * A game in progress: Good, not over, the requested mines on the board,
   * none of them revealed, and the counter short of the win target.
   */
  ghost predicate InPlay(s: State) {
    && Good(s)
    && !s.gameOver
    && |MinesOf(s.board)| == s.minesCount
    && RevealedOf(s.board) * MinesOf(s.board) == {}
    && s.revealedCells < Target(s)
  }
}
