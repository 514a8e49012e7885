/**
 * The board as script.js builds it: an array of `rows` row arrays of `cols`
 * square records, written here as a sequence of sequences that the engine
 * reassigns whenever the script updates a square in place. Also the two
 * free functions that build boards, createBoard and placeMines.
 */
module Board {
  import opened Grid

  /** `board[x][y]` is the square in row x, column y. */
  type Board = seq<seq<Cell>>

  /** The board has `rows` rows of `cols` squares each. */
  predicate Shaped(b: Board, rows: int, cols: int) {
    |b| == rows && forall i | 0 <= i < |b| :: |b[i]| == cols
  }

  /** The board after the square at p is set to c, as `board[x][y] = c` leaves it. */
  function Put(b: Board, p: Pos, c: Cell): (r: Board)
    requires 0 <= p.0 < |b| && 0 <= p.1 < |b[p.0]|
  {
    b[p.0 := b[p.0][p.1 := c]]
  }

  /** The revealed squares. */
  function RevealedOf(b: Board): set<Pos>
  {
    set i, j | 0 <= i < |b| && 0 <= j < |b[i]| && b[i][j].revealed :: (i, j)
  }

  /** The mined squares. */
  function MinesOf(b: Board): set<Pos>
  {
    set i, j | 0 <= i < |b| && 0 <= j < |b[i]| && b[i][j].mine :: (i, j)
  }

  /** The flagged squares. */
  function FlaggedOf(b: Board): set<Pos>
  {
    set i, j | 0 <= i < |b| && 0 <= j < |b[i]| && b[i][j].flagged :: (i, j)
  }

  /** Whether the square at q is in each of the three sets. */
  lemma At(b: Board, q: Pos)
    ensures q in RevealedOf(b) <==> 0 <= q.0 < |b| && 0 <= q.1 < |b[q.0]| && b[q.0][q.1].revealed
    ensures q in MinesOf(b) <==> 0 <= q.0 < |b| && 0 <= q.1 < |b[q.0]| && b[q.0][q.1].mine
    ensures q in FlaggedOf(b) <==> 0 <= q.0 < |b| && 0 <= q.1 < |b[q.0]| && b[q.0][q.1].flagged
  {
  }

  /** Setting one square moves that square, and only that one, in or out of each set. */
  lemma PutSets(b: Board, p: Pos, c: Cell)
    requires 0 <= p.0 < |b| && 0 <= p.1 < |b[p.0]|
    ensures RevealedOf(Put(b, p, c)) == if c.revealed then RevealedOf(b) + {p} else RevealedOf(b) - {p}
    ensures MinesOf(Put(b, p, c)) == if c.mine then MinesOf(b) + {p} else MinesOf(b) - {p}
    ensures FlaggedOf(Put(b, p, c)) == if c.flagged then FlaggedOf(b) + {p} else FlaggedOf(b) - {p}
  {
  }

  /** The squares of a rows x cols board are exactly the positions of the grid. */
  lemma ShapedSets(b: Board, rows: int, cols: int)
    requires Shaped(b, rows, cols)
    ensures RevealedOf(b) <= Cells(rows, cols)
    ensures MinesOf(b) <= Cells(rows, cols)
    ensures FlaggedOf(b) <= Cells(rows, cols)
  {
  }

  /** The board after `cell.flagged = !cell.flagged` on the square at p. */
  function ToggleFlag(b: Board, p: Pos): (r: Board)
    requires 0 <= p.0 < |b| && 0 <= p.1 < |b[p.0]|
    ensures RevealedOf(r) == RevealedOf(b) && MinesOf(r) == MinesOf(b)
    ensures FlaggedOf(r) == if p in FlaggedOf(b) then FlaggedOf(b) - {p} else FlaggedOf(b) + {p}
  {
    var c := b[p.0][p.1];
    PutSets(b, p, c.(flagged := !c.flagged));
    At(b, p);
    Put(b, p, c.(flagged := !c.flagged))
  }

  /** Inverting a flag twice gives back the board it started from. */
  lemma FlagTwiceRestores(b: Board, p: Pos)
    requires 0 <= p.0 < |b| && 0 <= p.1 < |b[p.0]|
    ensures ToggleFlag(ToggleFlag(b, p), p) == b
  {
    assert ToggleFlag(ToggleFlag(b, p), p)[p.0] == b[p.0];
  }

  /** How many mines the placement loop lays for a requested count: none when it is negative. */
  function Placed(mines: int): nat {
    if mines < 0 then 0 else mines
  }

  /**
   * A freshly dealt rows x cols board: nothing revealed or flagged, exactly
   * the requested number of mines, none of them on `keepClear`.
   */
  ghost predicate Dealt(b: Board, rows: int, cols: int, mines: int, keepClear: set<Pos>) {
    && Shaped(b, rows, cols)
    && RevealedOf(b) == {} && FlaggedOf(b) == {}
    && |MinesOf(b)| == Placed(mines) && MinesOf(b) * keepClear == {}
  }

  /** The rows x cols board of hidden, safe, unflagged squares that createBoard starts from. */
  function Blank(rows: nat, cols: nat): (b: Board)
    ensures Dealt(b, rows, cols, 0, {})
  {
    var b := seq(rows, i => seq(cols, j => HiddenCell));
    assert MinesOf(b) == {};
    b
  }

  /**
   * placeMines: lay `mines` mines on distinct squares of a board that has
   * none. The script draws a random square and retries when it already holds
   * a mine; a rejected draw changes nothing, so the loop below makes only the
   * accepted draws, picking any square that is still free. A draw must also
   * avoid `keepClear`: empty for placeMines itself, and the clicked square when
   * modelling the first click, which keeps discarding boards until that square
   * is clear. The script's loop never ends when there are fewer free squares
   * than mines, hence the precondition.
   */
  method PlaceMines(board: Board, mines: int, ghost rows: int, ghost cols: int, keepClear: set<Pos>) returns (b: Board)
    requires Dealt(board, rows, cols, 0, {})
    requires mines <= |Cells(rows, cols) - keepClear|
    ensures Dealt(b, rows, cols, mines, keepClear)
  {
    b := board;
    var count := 0;
    while count < mines
      invariant Shaped(b, rows, cols) && RevealedOf(b) == {} && FlaggedOf(b) == {}
      invariant 0 <= count == |MinesOf(b)| <= Placed(mines)
      invariant MinesOf(b) * keepClear == {}
      decreases mines - count
    {
      ghost var p := FreeSquare(b, rows, cols, keepClear, mines);
      var x, y :| 0 <= x < |b| && 0 <= y < |b[0]| && !b[x][y].mine && (x, y) !in keepClear;
      MineStep(b, rows, cols, (x, y));
      b := Put(b, (x, y), b[x][y].(mine := true));
      count := count + 1;
    }
  }

  /** While fewer mines than free squares are down, some square off `keepClear` is still free. */
  lemma FreeSquare(b: Board, rows: int, cols: int, keepClear: set<Pos>, mines: int) returns (p: Pos)
    requires Shaped(b, rows, cols) && |MinesOf(b)| < mines <= |Cells(rows, cols) - keepClear|
    ensures 0 <= p.0 < |b| && 0 <= p.1 < |b[0]| && !b[p.0][p.1].mine && p !in keepClear
  {
    var free := Cells(rows, cols) - keepClear;
    if free <= MinesOf(b) {
      SubsetCount(free, MinesOf(b));
    }
    p :| p in free && p !in MinesOf(b);
  }

  /** Laying a mine on a free square adds exactly that square to the mines and changes nothing else. */
  lemma MineStep(b: Board, rows: int, cols: int, p: Pos)
    requires Shaped(b, rows, cols) && InGrid(p, rows, cols) && !b[p.0][p.1].mine
    ensures Shaped(Put(b, p, b[p.0][p.1].(mine := true)), rows, cols)
    ensures RevealedOf(Put(b, p, b[p.0][p.1].(mine := true))) == RevealedOf(b)
    ensures FlaggedOf(Put(b, p, b[p.0][p.1].(mine := true))) == FlaggedOf(b)
    ensures MinesOf(Put(b, p, b[p.0][p.1].(mine := true))) == MinesOf(b) + {p}
    ensures |MinesOf(Put(b, p, b[p.0][p.1].(mine := true)))| == |MinesOf(b)| + 1
  {
    PutSets(b, p, b[p.0][p.1].(mine := true));
  }

  /**
   * createBoard: a rows x cols board of hidden, unflagged squares holding
   * exactly the requested number of mines, none of them on `keepClear`.
   */
  method CreateBoard(rows: nat, cols: nat, mines: int, keepClear: set<Pos>) returns (b: Board)
    requires keepClear <= Cells(rows, cols)
    requires mines <= rows * cols - |keepClear|
    ensures Dealt(b, rows, cols, mines, keepClear)
  {
    var newBoard := Blank(rows, cols);
    assert |Cells(rows, cols) - keepClear| == rows * cols - |keepClear| by {
      var all := Cells(rows, cols);
      CellsCount(rows, cols);
      assert all == keepClear + (all - keepClear);
      assert keepClear * (all - keepClear) == {};
    }
    b := PlaceMines(newBoard, mines, rows, cols, keepClear);
  }
}
