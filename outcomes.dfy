/**
 * What each entry point of script.js leaves behind, stated against the
 * invariants the game keeps: the counter matches the revealed squares, no
 * mine is revealed while the game runs, the game ends exactly on a mine or
 * once every safe square is revealed, the first click is always safe, and
 * a finished game only restarts through startGame.
 */
module Outcomes {
  import opened Grid
  import opened Board
  import opened Play
  import opened Flood

  /**
   * revealCell(p) on a hidden square of a game in progress past its first
   * click: the invariant holds afterwards; mines, flags and sizes stay; the
   * counter never passes the number of safe squares; the game ends exactly
   * when p is a mine or every safe square is revealed; and a game that goes
   * on is still in progress.
   */
  lemma RevealOutcome(s: State, p: Pos)
    requires InPlay(s) && !s.firstClick
    requires InGrid(p, s.rows, s.cols) && !s.board[p.0][p.1].revealed
    ensures Good(Reveal(s, p)) && !Reveal(s, p).firstClick
    ensures Reveal(s, p).rows == s.rows && Reveal(s, p).cols == s.cols && Reveal(s, p).minesCount == s.minesCount
    ensures MinesOf(Reveal(s, p).board) == MinesOf(s.board) && FlaggedOf(Reveal(s, p).board) == FlaggedOf(s.board)
    ensures Reveal(s, p).revealedCells <= Target(s)
    ensures Reveal(s, p).gameOver <==>
      p in MinesOf(s.board) || Cells(s.rows, s.cols) - MinesOf(s.board) <= RevealedOf(Reveal(s, p).board)
    ensures !Reveal(s, p).gameOver ==> InPlay(Reveal(s, p))
  {
    var r := Reveal(s, p);
    var mines := MinesOf(s.board);
    RevealFrame(s, p);
    RevealCount(s, p);
    RevealSafe(s, p);
    RevealEnds(s, p);
    At(s.board, p);
    ShapedSets(r.board, s.rows, s.cols);
    if p !in mines {
      assert RevealedOf(r.board) * mines == {} by {
        assert RevealedOf(r.board) * mines <= (RevealedOf(r.board) - RevealedOf(s.board)) * mines + RevealedOf(s.board) * mines;
      }
      WinCountMeansAllSafe(RevealedOf(r.board), mines, s.rows, s.cols);
    } else {
      assert r == CheckWin(Uncover(s, p).(gameOver := true));
    }
  }

  /**
   * handleCellClick(p) on any state the script can be in, game in progress
   * or not: a click that is not ignored ends the first move, keeps the
   * counter equal to the revealed squares, and never lands on a mine when
   * it is the first click, whatever the stored mine count.
   */
  lemma ClickKeepsGood(s: State, p: Pos, dealt: Board)
    requires Good(s) && InGrid(p, s.rows, s.cols) && Redealt(s, p, dealt) && !Ignored(s, p)
    ensures
      var r := Click(s, p, dealt);
      && Good(r) && !r.firstClick
      && r.rows == s.rows && r.cols == s.cols && r.minesCount == s.minesCount
      && (s.firstClick ==> p !in MinesOf(r.board) && |MinesOf(r.board)| == |MinesOf(dealt)|)
      && (!s.firstClick ==> MinesOf(r.board) == MinesOf(s.board))
  {
    var s0 := if s.firstClick then s.(board := dealt, firstClick := false) else s;
    assert Click(s, p, dealt) == Reveal(s0, p);
    if s.firstClick {
      At(dealt, p);
      At(s.board, p);
    }
    RevealFrame(s0, p);
    RevealCount(s0, p);
  }

  /**
   * handleCellClick(p), with `dealt` the board the first-click loop settles
   * on: a click on a revealed or flagged square or after the game ended
   * changes nothing; any other click ends the first move, never on a mine
   * when it is the first, leaves the counter at most at the number of safe
   * squares, and then behaves as RevealOutcome says.
   */
  lemma ClickOutcome(s: State, p: Pos, dealt: Board)
    requires InPlay(s) && InGrid(p, s.rows, s.cols) && Redealt(s, p, dealt)
    ensures Ignored(s, p) ==> Click(s, p, dealt) == s
    ensures !Ignored(s, p) ==>
      var r := Click(s, p, dealt);
      && Good(r) && !r.firstClick
      && (s.firstClick ==> p !in MinesOf(r.board))
      && |MinesOf(r.board)| == s.minesCount
      && r.revealedCells <= Target(r)
      && (r.gameOver <==> p in MinesOf(r.board) || Cells(s.rows, s.cols) - MinesOf(r.board) <= RevealedOf(r.board))
      && (!r.gameOver ==> InPlay(r))
  {
    if !Ignored(s, p) {
      ClickKeepsGood(s, p, dealt);
      var s0 := if s.firstClick then s.(board := dealt, firstClick := false) else s;
      assert Click(s, p, dealt) == Reveal(s0, p);
      if s.firstClick {
        At(dealt, p);
        assert InPlay(s0);
      }
      RevealOutcome(s0, p);
    }
  }

  /**
   * handleCellFlag(p): on a hidden square of a running game it inverts that
   * square's flag and nothing else, keeping a game in progress in progress;
   * on a revealed square or after the game ended it changes nothing.
   */
  lemma FlagOutcome(s: State, p: Pos)
    requires Shaped(s.board, s.rows, s.cols) && InGrid(p, s.rows, s.cols)
    ensures s.board[p.0][p.1].revealed || s.gameOver ==> Flag(s, p) == s
    ensures !(s.board[p.0][p.1].revealed || s.gameOver) ==>
      && Flag(s, p).board[p.0][p.1].flagged == !s.board[p.0][p.1].flagged
      && Flag(s, p) == s.(board := Flag(s, p).board)
      && Shaped(Flag(s, p).board, s.rows, s.cols)
      && RevealedOf(Flag(s, p).board) == RevealedOf(s.board)
      && MinesOf(Flag(s, p).board) == MinesOf(s.board)
      && FlaggedOf(Flag(s, p).board) == if s.board[p.0][p.1].flagged then FlaggedOf(s.board) - {p} else FlaggedOf(s.board) + {p}
    ensures InPlay(s) ==> InPlay(Flag(s, p))
  {
    if !(s.board[p.0][p.1].revealed || s.gameOver) {
      var c := s.board[p.0][p.1];
      var f := Flag(s, p);
      assert f == s.(board := Put(s.board, p, c.(flagged := !c.flagged)));
      PutSets(s.board, p, c.(flagged := !c.flagged));
      At(s.board, p);
      assert Target(f) == Target(s) && f.revealedCells == s.revealedCells;
    }
  }

  /** Flagging the same square twice gives back the state it started from. */
  lemma FlagTwice(s: State, p: Pos)
    requires Shaped(s.board, s.rows, s.cols) && InGrid(p, s.rows, s.cols)
    ensures Shaped(Flag(s, p).board, s.rows, s.cols)
    ensures Flag(Flag(s, p), p) == s
  {
    if !(s.board[p.0][p.1].revealed || s.gameOver) {
      FlagOutcome(s, p);
      FlagTwiceRestores(s.board, p);
    }
  }

  /**
   * Once the game is over neither a click nor a flag changes anything, and
   * revealCell keeps it over: only startGame clears gameOver.
   */
  lemma OverIsFinal(s: State, p: Pos, dealt: Board)
    requires Shaped(s.board, s.rows, s.cols) && InGrid(p, s.rows, s.cols)
    requires s.gameOver && Redealt(s, p, dealt)
    ensures Click(s, p, dealt) == s
    ensures Flag(s, p) == s
    ensures !s.board[p.0][p.1].revealed ==> Reveal(s, p).gameOver
  {
    if !s.board[p.0][p.1].revealed {
      RevealFrame(s, p);
    }
  }

  /**
   * startGame(rows, cols, mines), with `dealt` the board createBoard returns:
   * a board smaller than 5x5 is refused and only the stored mine count
   * changes; otherwise a new game waits for its first click on a rows x cols
   * board with nothing revealed or flagged and exactly `mines` mines, none
   * when `mines` is negative. It is in progress when there is at least one
   * safe square.
   */
  lemma StartOutcome(s: State, rows: int, cols: int, mines: int, dealt: Board)
    requires rows >= 5 && cols >= 5 ==> Dealt(dealt, rows, cols, mines, {})
    ensures rows < 5 || cols < 5 ==> Start(s, rows, cols, mines, dealt) == s.(minesCount := mines)
    ensures rows >= 5 && cols >= 5 ==>
      var r := Start(s, rows, cols, mines, dealt);
      && Good(r) && r.firstClick && !r.gameOver && r.revealedCells == 0
      && r.rows == rows && r.cols == cols && r.minesCount == mines
      && RevealedOf(r.board) == {} && FlaggedOf(r.board) == {}
      && |MinesOf(r.board)| == if mines < 0 then 0 else mines
    ensures rows >= 5 && cols >= 5 && 0 <= mines < rows * cols ==> InPlay(Start(s, rows, cols, mines, dealt))
  {
    if rows >= 5 && cols >= 5 {
      CellsCount(rows, cols);
    }
  }

  /**
   * With a negative mine count placeMines lays no mine and the win target
   * lies beyond the number of squares: a click on such a game never ends
   * it, neither on a mine nor by a win.
   */
  lemma NegativeMinesNeverEnd(s: State, p: Pos, dealt: Board)
    requires Good(s) && !s.gameOver && s.minesCount < 0 && MinesOf(s.board) == {}
    requires InGrid(p, s.rows, s.cols) && Redealt(s, p, dealt)
    ensures !Click(s, p, dealt).gameOver
    ensures MinesOf(Click(s, p, dealt).board) == {}
  {
    if !Ignored(s, p) {
      var r := Click(s, p, dealt);
      ClickKeepsGood(s, p, dealt);
      var s0 := if s.firstClick then s.(board := dealt, firstClick := false) else s;
      assert r == Reveal(s0, p);
      if s.firstClick {
        At(dealt, p);
        At(s.board, p);
      }
      RevealFrame(s0, p);
      RevealEnds(s0, p);
      ShapedSets(r.board, s.rows, s.cols);
      SubsetCount(RevealedOf(r.board), Cells(s.rows, s.cols));
    }
  }

  /**
   * As written, startGame stores the mine count before it refuses a small
   * board. Refused part-way through a game with a count one short of what
   * the win test needs, it lets a click on a numbered safe square p end the
   * game while another safe square q is still hidden.
   */
  lemma RefusedStartEndsEarly(s: State, p: Pos, q: Pos)
    requires Good(s) && !s.gameOver && !s.firstClick
    requires InGrid(p, s.rows, s.cols) && InGrid(q, s.rows, s.cols) && p != q
    requires !s.board[p.0][p.1].revealed && !s.board[p.0][p.1].flagged && !s.board[p.0][p.1].mine
    requires !s.board[q.0][q.1].revealed && !s.board[q.0][q.1].mine
    requires Neighbours(p, s.rows, s.cols) * MinesOf(s.board) != {}
    ensures
      var t := Start(s, 3, 3, |Cells(s.rows, s.cols)| - s.revealedCells - 1, s.board);
      var r := Click(t, p, t.board);
      && r.gameOver
      && q in Cells(s.rows, s.cols) - MinesOf(r.board) - RevealedOf(r.board)
  {
    var t := Start(s, 3, 3, |Cells(s.rows, s.cols)| - s.revealedCells - 1, s.board);
    var t1 := Uncover(t, p);
    MinesAroundCount(t1, p);
    assert Click(t, p, t.board) == Reveal(t, p);
    assert Reveal(t, p) == CheckWin(t1);
    At(s.board, q);
    At(t1.board, q);
  }

  /**
   * revealCell runs the win check after a mine too: when the mine is hit
   * with exactly one safe square left hidden, the counter reaches the
   * number of safe squares, so the win test holds on a lost game.
   */
  lemma LossMeetsWinTest(s: State, p: Pos)
    requires InPlay(s) && !s.firstClick && s.revealedCells == Target(s) - 1
    requires InGrid(p, s.rows, s.cols) && !s.board[p.0][p.1].revealed && s.board[p.0][p.1].mine
    ensures Reveal(s, p).gameOver && Reveal(s, p).revealedCells == Target(Reveal(s, p))
    ensures p in RevealedOf(Reveal(s, p).board) * MinesOf(Reveal(s, p).board)
  {
    var r := Reveal(s, p);
    assert r == CheckWin(Uncover(s, p).(gameOver := true));
    At(s.board, p);
  }

  /**
   * startGame with the mine count stored after the size check: a refused
   * start changes nothing, so a game in progress stays in progress and
   * RevealOutcome's win test stays exact; an accepted one starts a game in
   * progress whenever there is at least one safe square.
   */
  lemma CheckedStartOutcome(s: State, rows: int, cols: int, mines: int, dealt: Board)
    requires rows >= 5 && cols >= 5 ==> Dealt(dealt, rows, cols, mines, {})
    ensures rows < 5 || cols < 5 ==> CheckedStart(s, rows, cols, mines, dealt) == s
    ensures (rows < 5 || cols < 5) && InPlay(s) ==> InPlay(CheckedStart(s, rows, cols, mines, dealt))
    ensures rows >= 5 && cols >= 5 && 0 <= mines < rows * cols ==>
      var r := CheckedStart(s, rows, cols, mines, dealt);
      && InPlay(r) && r.firstClick && r.rows == rows && r.cols == cols && |MinesOf(r.board)| == mines
  {
    if rows >= 5 && cols >= 5 {
      CellsCount(rows, cols);
    }
  }

  /**
   * With no mine on the board, the first click reveals every square and
   * wins at once: the flood fill spreads from every square it reveals.
   */
  lemma EmptyBoardWinsAtOnce(s: State, p: Pos, dealt: Board)
    requires InPlay(s) && s.firstClick && s.minesCount == 0
    requires InGrid(p, s.rows, s.cols) && !s.board[p.0][p.1].flagged && Redealt(s, p, dealt)
    ensures RevealedOf(Click(s, p, dealt).board) == Cells(s.rows, s.cols)
    ensures Click(s, p, dealt).gameOver
  {
    assert MinesOf(s.board) == {} && RevealedOf(s.board) == {};
    At(s.board, p);
    var s0 := s.(firstClick := false);
    var r := Reveal(s0, p);
    assert Click(s, p, dealt) == r;
    RevealOutcome(s0, p);
    RevealCloses(s0, p);
    forall q | q in Cells(s.rows, s.cols)
      ensures q in RevealedOf(r.board)
    {
      EmptyBoardFloods(RevealedOf(r.board), p, q, s.rows, s.cols);
    }
    ShapedSets(r.board, s.rows, s.cols);
  }
}
