/**
 * Geometry of the minesweeper board: cells, positions, the eight-neighbourhood
 * and the facts about counting cells that the engine's proofs rest on.
 * Everything here is a pure value.
 */
module Grid {

  /** A board position (row, column), as the script's `board[x][y]` indexes it. */
  type Pos = (int, int)

  /** One square of the board: the `{revealed, mine, flagged}` record of script.js. */
  datatype Cell = Cell(revealed: bool, mine: bool, flagged: bool)

  /** The record every square starts as. */
  const HiddenCell: Cell := Cell(false, false, false)

  predicate InGrid(p: Pos, rows: int, cols: int) {
    0 <= p.0 < rows && 0 <= p.1 < cols
  }

  /** All positions of a rows x cols board. */
  function Cells(rows: int, cols: int): (s: set<Pos>)
    ensures forall p :: p in s <==> InGrid(p, rows, cols)
  {
    set i, j | 0 <= i < rows && 0 <= j < cols :: (i, j)
  }

  /**
   * The i-th of the eight entries of the script's direction list: the row
   * above from left to right, then left and right, then the row below from
   * left to right.
   */
  function Direction(i: int): Pos
    requires 0 <= i < 8
  {
    if i == 0 then (-1, -1) else if i == 1 then (-1, 0) else if i == 2 then (-1, 1)
    else if i == 3 then (0, -1) else if i == 4 then (0, 1)
    else if i == 5 then (1, -1) else if i == 6 then (1, 0) else (1, 1)
  }

  function Shift(p: Pos, d: Pos): Pos {
    (p.0 + d.0, p.1 + d.1)
  }

  function Offset(p: Pos, q: Pos): Pos {
    (q.0 - p.0, q.1 - p.1)
  }

  /** King-move adjacency: a different square at most one row and one column away. */
  predicate Adjacent(p: Pos, q: Pos) {
    p != q && -1 <= q.0 - p.0 <= 1 && -1 <= q.1 - p.1 <= 1
  }

  /** The in-bounds squares adjacent to p. */
  function Neighbours(p: Pos, rows: int, cols: int): (s: set<Pos>)
    ensures forall q :: q in s <==> InGrid(q, rows, cols) && Adjacent(p, q)
  {
    set q | q in Cells(rows, cols) && Adjacent(p, q)
  }

  /**
   * A safe square with no mine around it: revealing it makes the script
   * reveal its neighbours too.
   */
  ghost predicate IsZero(p: Pos, mines: set<Pos>, rows: int, cols: int) {
    p !in mines && Neighbours(p, rows, cols) * mines == {}
  }

  /**
   * Every square revealed since `before` that is a zero square has all its
   * neighbours revealed: the flood fill has run to completion.
   */
  ghost predicate Closed(revealed: set<Pos>, before: set<Pos>, mines: set<Pos>, rows: int, cols: int) {
    forall p {:trigger IsZero(p, mines, rows, cols)} ::
      p in revealed && p !in before && IsZero(p, mines, rows, cols) ==> Neighbours(p, rows, cols) <= revealed
  }

  /** Every listed offset leads to an adjacent square. */
  lemma DirectionAdjacent(p: Pos, i: int)
    requires 0 <= i < 8
    ensures Adjacent(p, Shift(p, Direction(i)))
  {
  }

  /** Every adjacent square is reached by one of the listed offsets. */
  lemma AdjacentListed(p: Pos, q: Pos) returns (i: int)
    requires Adjacent(p, q)
    ensures 0 <= i < 8 && Shift(p, Direction(i)) == q
  {
    var d := Offset(p, q);
    i := if d == (-1, -1) then 0 else if d == (-1, 0) then 1 else if d == (-1, 1) then 2
      else if d == (0, -1) then 3 else if d == (0, 1) then 4
      else if d == (1, -1) then 5 else if d == (1, 0) then 6 else 7;
  }

  /** No offset appears twice in the list, so no neighbour is visited twice. */
  lemma DirectionsDistinct(p: Pos, j: int, k: int)
    requires 0 <= j < k < 8
    ensures Shift(p, Direction(j)) != Shift(p, Direction(k))
  {
  }

  /** The in-bounds squares the first k offsets around p reach. */
  ghost function Visited(p: Pos, rows: int, cols: int, k: nat): set<Pos>
    requires k <= 8
  {
    if k == 0 then {}
    else
      var q := Shift(p, Direction(k - 1));
      Visited(p, rows, cols, k - 1) + if InGrid(q, rows, cols) then {q} else {}
  }

  /**
   * The first k offsets reach only neighbours of p, every in-bounds square
   * they point at, and none of the squares the later offsets point at.
   */
  lemma {:induction false} VisitedReach(p: Pos, rows: int, cols: int, k: nat)
    requires k <= 8
    ensures Visited(p, rows, cols, k) <= Neighbours(p, rows, cols)
    ensures forall j | 0 <= j < k && InGrid(Shift(p, Direction(j)), rows, cols) ::
      Shift(p, Direction(j)) in Visited(p, rows, cols, k)
    ensures forall m | k <= m < 8 :: Shift(p, Direction(m)) !in Visited(p, rows, cols, k)
  {
    if k > 0 {
      VisitedReach(p, rows, cols, k - 1);
      DirectionAdjacent(p, k - 1);
      forall m | k <= m < 8
        ensures Shift(p, Direction(k - 1)) != Shift(p, Direction(m))
      {
        DirectionsDistinct(p, k - 1, m);
      }
    }
  }

  /** All eight offsets reach exactly the neighbours of p. */
  lemma VisitedAll(p: Pos, rows: int, cols: int)
    ensures Visited(p, rows, cols, 8) == Neighbours(p, rows, cols)
  {
    VisitedReach(p, rows, cols, 8);
    forall q | q in Neighbours(p, rows, cols)
      ensures q in Visited(p, rows, cols, 8)
    {
      var i := AdjacentListed(p, q);
    }
  }

  /** A neighbour of a zero square is never a mine. */
  lemma ZeroNeighbourIsSafe(p: Pos, q: Pos, mines: set<Pos>, rows: int, cols: int)
    requires IsZero(p, mines, rows, cols) && q in Neighbours(p, rows, cols)
    ensures q !in mines
  {
    assert q !in Neighbours(p, rows, cols) * mines;
  }

  /** The squares of one row. */
  function Row(i: int, cols: int): (s: set<Pos>)
    ensures forall p :: p in s <==> p.0 == i && 0 <= p.1 < cols
  {
    set j | 0 <= j < cols :: (i, j)
  }

  lemma {:induction false} RowCount(i: int, cols: nat)
    ensures |Row(i, cols)| == cols
  {
    if cols > 0 {
      var last := (i, cols - 1);
      RowCount(i, cols - 1);
      assert last !in Row(i, cols - 1);
      assert Row(i, cols) == Row(i, cols - 1) + {last};
    } else {
      assert Row(i, cols) == {};
    }
  }

  /** One more row of cols squares. */
  lemma OneMoreRow(rows: int, cols: int)
    ensures (rows - 1) * cols + cols == rows * cols
  {
  }

  /** A rows x cols board has exactly rows * cols squares. */
  lemma {:induction false} CellsCount(rows: nat, cols: nat)
    ensures |Cells(rows, cols)| == rows * cols
  {
    if rows > 0 {
      var upper, last := Cells(rows - 1, cols), Row(rows - 1, cols);
      CellsCount(rows - 1, cols);
      RowCount(rows - 1, cols);
      assert Cells(rows, cols) == upper + last;
      assert upper * last == {};
      assert |upper + last| == |upper| + |last|;
      OneMoreRow(rows, cols);
    } else {
      assert Cells(rows, cols) == {};
    }
  }

  /** A subset is no larger than its superset, and equally large only when equal. */
  lemma SubsetCount<T>(a: set<T>, b: set<T>)
    requires a <= b
    ensures |a| <= |b|
    ensures |a| == |b| ==> a == b
  {
    assert b == a + (b - a);
    assert a * (b - a) == {};
    if |a| == |b| {
      assert |b - a| == 0;
    }
  }

  /**
   * When no mine is revealed and the mines all lie on the board, the number of
   * revealed squares is at most the number of safe squares, and reaches it
   * exactly when every safe square is revealed.
   */
  lemma WinCountMeansAllSafe(revealed: set<Pos>, mines: set<Pos>, rows: nat, cols: nat)
    requires revealed <= Cells(rows, cols) - mines
    requires mines <= Cells(rows, cols)
    ensures |revealed| <= |Cells(rows, cols)| - |mines|
    ensures |revealed| == |Cells(rows, cols)| - |mines| <==> Cells(rows, cols) - mines <= revealed
  {
    var all := Cells(rows, cols);
    assert all == mines + (all - mines);
    assert mines * (all - mines) == {};
    assert |all - mines| == |all| - |mines|;
    SubsetCount(revealed, all - mines);
    if all - mines <= revealed {
      assert revealed == all - mines;
    }
  }

  /** A square adjacent to one with no mined neighbour is not a mine. */
  lemma AdjacentUnmined(p: Pos, q: Pos, mines: set<Pos>, rows: int, cols: int)
    requires Neighbours(p, rows, cols) * mines == {}
    requires InGrid(q, rows, cols) && Adjacent(p, q)
    ensures q !in mines
  {
    assert q in Neighbours(p, rows, cols);
    assert q !in Neighbours(p, rows, cols) * mines;
  }

  /** Two reveals that add no mine but possibly q, where q is safe, add no mine together. */
  lemma SafeCompose(r0: set<Pos>, r1: set<Pos>, r2: set<Pos>, mines: set<Pos>, q: Pos)
    requires (r1 - r0) * mines == {} && (r2 - r1) * mines <= {q} && q !in mines
    ensures (r2 - r0) * mines == {}
  {
    assert (r2 - r0) * mines <= (r1 - r0) * mines + (r2 - r1) * mines;
  }

  /** Composing two reveals keeps the flood fill complete. */
  lemma ClosedCompose(r0: set<Pos>, r1: set<Pos>, r2: set<Pos>, mines: set<Pos>, rows: int, cols: int)
    requires r0 <= r1 <= r2
    requires Closed(r1, r0, mines, rows, cols) && Closed(r2, r1, mines, rows, cols)
    ensures Closed(r2, r0, mines, rows, cols)
  {
  }

  /**
   * A set x that, together with the squares revealed `before`, holds every
   * neighbour of each zero square in x: a region the flood fill cannot leave.
   */
  ghost predicate ZeroClosed(x: set<Pos>, before: set<Pos>, mines: set<Pos>, rows: int, cols: int) {
    forall z {:trigger IsZero(z, mines, rows, cols)} ::
      z in x && IsZero(z, mines, rows, cols) ==> Neighbours(z, rows, cols) <= x + before
  }

  /** More squares revealed before keeps a region closed. */
  lemma ZeroClosedGrows(x: set<Pos>, before: set<Pos>, later: set<Pos>, mines: set<Pos>, rows: int, cols: int)
    requires before <= later && ZeroClosed(x, before, mines, rows, cols)
    ensures ZeroClosed(x, later, mines, rows, cols)
  {
    forall z | z in x && IsZero(z, mines, rows, cols)
      ensures Neighbours(z, rows, cols) <= x + later
    {
      assert x + before <= x + later;
    }
  }

  /**
   * Every square of `added` lies next to a zero square of `from`: the flood
   * fill reveals a square only from a zero square beside it, so it stops at
   * the numbered squares around the zero region.
   */
  ghost predicate Spread(added: set<Pos>, from: set<Pos>, mines: set<Pos>, rows: int, cols: int) {
    forall q :: q in added ==> exists z :: z in from && IsZero(z, mines, rows, cols) && Adjacent(z, q)
  }

  /**
   * Revealing a square p and then sweeping its neighbours: if the sweep
   * revealed every neighbour of p and completed the flood fill, then the
   * whole reveal completed it, p included.
   */
  lemma SeedCloses(r0: set<Pos>, r1: set<Pos>, r2: set<Pos>, p: Pos, mines: set<Pos>, rows: int, cols: int)
    requires r1 == r0 + {p} && r1 <= r2
    requires Neighbours(p, rows, cols) <= r2
    requires Closed(r2, r1, mines, rows, cols)
    ensures Closed(r2, r0, mines, rows, cols)
  {
  }

  /** Chebyshev (king-move) distance. */
  function Distance(p: Pos, q: Pos): nat {
    var d0 := if q.0 >= p.0 then q.0 - p.0 else p.0 - q.0;
    var d1 := if q.1 >= p.1 then q.1 - p.1 else p.1 - q.1;
    if d0 >= d1 then d0 else d1
  }

  function Sign(n: int): int {
    if n > 0 then 1 else if n < 0 then -1 else 0
  }

  /** One king move from q towards p. */
  function Toward(q: Pos, p: Pos): Pos {
    (q.0 + Sign(p.0 - q.0), q.1 + Sign(p.1 - q.1))
  }

  /**
   * On a board without mines every square is a zero square, so a completed
   * flood fill that contains one square of the board contains all of them.
   */
  lemma {:induction false} EmptyBoardFloods(revealed: set<Pos>, p: Pos, q: Pos, rows: int, cols: int)
    requires Closed(revealed, {}, {}, rows, cols)
    requires p in revealed && InGrid(p, rows, cols) && InGrid(q, rows, cols)
    ensures q in revealed
    decreases Distance(p, q)
  {
    if q != p {
      var r := Toward(q, p);
      assert InGrid(r, rows, cols) && Distance(p, r) < Distance(p, q);
      EmptyBoardFloods(revealed, p, r, rows, cols);
      assert IsZero(r, {}, rows, cols);
      assert q in Neighbours(r, rows, cols);
    }
  }
}
