/**
 * The engine of script.js as the script runs it: its global variables are
 * the fields of one `Game` object, and each function of the script is a
 * method that updates them step by step. Every method is proved to end in
 * exactly the state the matching function of module Play describes, so the
 * properties proved in modules Flood and Outcomes hold of the running game.
 */
module Engine {
  import opened Grid
  import opened Board
  import opened Play
  import opened Flood

  /** The script's globals: board, boardSize (rows, cols), minesCount, firstClick, gameOver, revealedCells. */
  class Game {
    var board: Board
    var rows: nat
    var cols: nat
    var minesCount: int
    var firstClick: bool
    var gameOver: bool
    var revealedCells: int

    /** The globals as one value. */
    function Current(): State
      reads this
    {
      State(board, rows, cols, minesCount, firstClick, gameOver, revealedCells)
    }

    /** The globals as the script declares them: no board yet, waiting for a first click. */
    constructor ()
      ensures Current() == State([], 0, 0, 0, true, false, 0)
      ensures Good(Current())
    {
      board := [];
      rows, cols, minesCount := 0, 0, 0;
      firstClick, gameOver, revealedCells := true, false, 0;
    }

    /**
     * startGame with the form's values as parameters. The mine count is
     * stored before the size check. createBoard never finishes laying mines
     * when there are more mines than squares, hence the precondition.
     */
    method StartGame(rows: int, cols: int, mines: int)
      requires rows >= 5 && cols >= 5 ==> mines <= rows * cols
      modifies this
      ensures rows >= 5 && cols >= 5 ==> Dealt(board, rows, cols, mines, {})
      ensures Current() == Start(old(Current()), rows, cols, mines, board)
    {
      minesCount := mines;
      if rows < 5 || cols < 5 {
        return;
      }
      this.rows, this.cols := rows, cols;
      firstClick := true;
      gameOver := false;
      revealedCells := 0;
      board := CreateBoard(rows, cols, minesCount, {});
    }

    /**
     * handleCellClick(x, y). On the first click the script keeps replacing
     * the board while the clicked square holds a mine; `dealt` is the board
     * it settles on, one with that square clear. That loop never ends when
     * every square is a mine, hence the precondition.
     */
    method HandleCellClick(x: int, y: int) returns (ghost dealt: Board)
      requires Shaped(board, rows, cols) && InGrid((x, y), rows, cols)
      requires firstClick && board[x][y].mine && !Ignored(Current(), (x, y)) ==> minesCount < rows * cols
      modifies this
      ensures Redealt(old(Current()), (x, y), dealt)
      ensures Current() == Click(old(Current()), (x, y), dealt)
    {
      dealt := board;
      if board[x][y].revealed || board[x][y].flagged || gameOver {
        return;
      }
      if firstClick {
        if board[x][y].mine {
          board := CreateBoard(rows, cols, minesCount, {(x, y)});
          dealt := board;
          At(board, (x, y));
        }
        firstClick := false;
      }
      RevealCell(x, y);
    }

    /** handleCellFlag(x, y): invert the flag of a hidden square while the game runs. */
    method HandleCellFlag(x: int, y: int)
      requires Shaped(board, rows, cols) && InGrid((x, y), rows, cols)
      modifies this`board
      ensures Current() == Flag(old(Current()), (x, y))
    {
      var cell := board[x][y];
      if cell.revealed || gameOver {
        return;
      }
      board := Put(board, (x, y), cell.(flagged := !cell.flagged));
    }

    /**
     * revealCell(x, y): mark the square revealed and count it; a mine ends
     * the game, a square with no mine around it reveals its neighbours; then
     * the win check. It checks neither bounds nor flags: its callers pass a
     * hidden square on the board, and a flagged one is revealed all the same.
     */
    method RevealCell(x: int, y: int)
      requires Shaped(board, rows, cols) && InGrid((x, y), rows, cols) && !board[x][y].revealed
      modifies this`board, this`revealedCells, this`gameOver
      decreases Hidden(Current()), 1
      ensures Current() == Reveal(old(Current()), (x, y))
    {
      ghost var s := Current();
      var cell := board[x][y];
      board := Put(board, (x, y), cell.(revealed := true));
      revealedCells := revealedCells + 1;
      assert Current() == Uncover(s, (x, y));
      if cell.mine {
        gameOver := true;
      } else {
        var surroundingMines := GetSurroundingMines(x, y);
        if surroundingMines == 0 {
          At(s.board, (x, y));
          RevealSurroundingCells(x, y);
        }
      }
      CheckWinCondition();
    }

    /** checkWinCondition: the game is won once the counter reaches the number of safe squares. */
    method CheckWinCondition()
      modifies this`gameOver
      ensures Current() == CheckWin(old(Current()))
    {
      var totalCells := rows * cols;
      var totalNonMineCells := totalCells - minesCount;
      CellsCount(rows, cols);
      if revealedCells == totalNonMineCells {
        gameOver := true;
      }
    }

    /**
     * getSurroundingMines(x, y): visit the eight offsets in the script's
     * order and count the squares on the board that hold a mine. The count
     * is the number of mined neighbours of (x, y), which never includes
     * (x, y) itself.
     */
    method GetSurroundingMines(x: int, y: int) returns (count: int)
      requires Shaped(board, rows, cols)
      ensures count == SurroundingMines(Current(), (x, y), 8)
      ensures count == |Neighbours((x, y), rows, cols) * MinesOf(board)|
      ensures 0 <= count <= 8
    {
      count := 0;
      for k := 0 to 8
        invariant count == SurroundingMines(Current(), (x, y), k)
      {
        var q := Shift((x, y), Direction(k));
        var newX, newY := q.0, q.1;
        if newX >= 0 && newY >= 0 && newX < rows && newY < cols {
          if board[newX][newY].mine {
            count := count + 1;
          }
        }
      }
      MinesAroundCount(Current(), (x, y));
    }

    /**
     * revealSurroundingCells(x, y): visit the eight offsets in the script's
     * order and reveal each square on the board that is still hidden when
     * its turn comes, flagged or not.
     */
    method RevealSurroundingCells(x: int, y: int)
      requires Shaped(board, rows, cols)
      modifies this`board, this`revealedCells, this`gameOver
      decreases Hidden(Current()), 3
      ensures Current() == Sweep(old(Current()), (x, y), 8)
    {
      ghost var s := Current();
      for k := 0 to 8
        invariant Current() == Sweep(s, (x, y), k)
      {
        RevealNeighbour(x, y, k, s);
      }
    }

    /**
     * One turn of revealSurroundingCells' loop, the neighbour in direction
     * k: after the first k turns of a sweep that started in s, it makes k + 1.
     */
    method RevealNeighbour(x: int, y: int, k: int, ghost s: State)
      requires Shaped(s.board, s.rows, s.cols) && 0 <= k < 8
      requires Current() == Sweep(s, (x, y), k)
      modifies this`board, this`revealedCells, this`gameOver
      decreases Hidden(s), 2
      ensures Current() == Sweep(s, (x, y), k + 1)
    {
      var q := Shift((x, y), Direction(k));
      var newX, newY := q.0, q.1;
      if newX >= 0 && newY >= 0 && newX < rows && newY < cols {
        if !board[newX][newY].revealed {
          RevealCell(newX, newY);
        }
      }
    }
  }
}
