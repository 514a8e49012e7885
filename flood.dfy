/**
 * What revealCell and revealSurroundingCells do to the board, proved by
 * mutual induction along the same recursion as Play.Reveal and Play.Sweep:
 * which squares change, which become revealed, and when the game ends.
 */
module Flood {
  import opened Grid
  import opened Board
  import opened Play

  /**
   * After k directions getSurroundingMines has counted the mined squares
   * among the in-bounds squares those directions reach, and at most one per
   * direction.
   */
  lemma {:induction false} SurroundingMinesCounts(s: State, p: Pos, k: nat)
    requires Shaped(s.board, s.rows, s.cols) && k <= 8
    ensures SurroundingMines(s, p, k) == |Visited(p, s.rows, s.cols, k) * MinesOf(s.board)|
    ensures 0 <= SurroundingMines(s, p, k) <= k
  {
    if k > 0 {
      SurroundingMinesCounts(s, p, k - 1);
      VisitedReach(p, s.rows, s.cols, k - 1);
      var q := Shift(p, Direction(k - 1));
      var before := Visited(p, s.rows, s.cols, k - 1) * MinesOf(s.board);
      At(s.board, q);
      if MinedAt(s, p, k - 1) {
        assert q !in before;
        assert Visited(p, s.rows, s.cols, k) * MinesOf(s.board) == before + {q};
      } else {
        assert Visited(p, s.rows, s.cols, k) * MinesOf(s.board) == before;
      }
    }
  }

  /**
   * getSurroundingMines(p) is the number of neighbours of p on the board that
   * hold a mine (the eight offsets never include p itself: see
   * DirectionAdjacent), so it lies in 0..8, and it is 0 exactly when no
   * neighbour holds a mine.
   */
  lemma MinesAroundCount(s: State, p: Pos)
    requires Shaped(s.board, s.rows, s.cols)
    ensures SurroundingMines(s, p, 8) == |Neighbours(p, s.rows, s.cols) * MinesOf(s.board)|
    ensures 0 <= SurroundingMines(s, p, 8) <= 8
    ensures SurroundingMines(s, p, 8) == 0 <==> Neighbours(p, s.rows, s.cols) * MinesOf(s.board) == {}
  {
    SurroundingMinesCounts(s, p, 8);
    VisitedAll(p, s.rows, s.cols);
  }

  /**
   * revealCell changes only `revealed` marks and `gameOver`: mines, flags, the
   * mine count and firstClick stay, and a finished game stays finished.
   */
  lemma {:induction false} RevealFrame(s: State, p: Pos)
    requires Shaped(s.board, s.rows, s.cols) && InGrid(p, s.rows, s.cols) && !s.board[p.0][p.1].revealed
    ensures Reveal(s, p).minesCount == s.minesCount && Reveal(s, p).firstClick == s.firstClick
    ensures MinesOf(Reveal(s, p).board) == MinesOf(s.board)
    ensures FlaggedOf(Reveal(s, p).board) == FlaggedOf(s.board)
    ensures s.gameOver ==> Reveal(s, p).gameOver
    decreases Hidden(s), 1
  {
    var s1 := Uncover(s, p);
    var r := Reveal(s, p);
    if s.board[p.0][p.1].mine {
      assert r == CheckWin(s1.(gameOver := true));
    } else if SurroundingMines(s1, p, 8) == 0 {
      assert r == CheckWin(Sweep(s1, p, 8));
      SweepFrame(s1, p, 8);
    } else {
      assert r == CheckWin(s1);
    }
  }

  /** The same for revealSurroundingCells. */
  lemma {:induction false} SweepFrame(s: State, p: Pos, k: nat)
    requires Shaped(s.board, s.rows, s.cols) && k <= 8
    ensures Sweep(s, p, k).minesCount == s.minesCount && Sweep(s, p, k).firstClick == s.firstClick
    ensures MinesOf(Sweep(s, p, k).board) == MinesOf(s.board)
    ensures FlaggedOf(Sweep(s, p, k).board) == FlaggedOf(s.board)
    ensures s.gameOver ==> Sweep(s, p, k).gameOver
    decreases Hidden(s), 2, k
  {
    if k == 0 {
      assert Sweep(s, p, k) == s;
    } else {
      SweepFrame(s, p, k - 1);
      var t := Sweep(s, p, k - 1);
      var q := Shift(p, Direction(k - 1));
      if InGrid(q, t.rows, t.cols) && !t.board[q.0][q.1].revealed {
        assert Sweep(s, p, k) == Reveal(t, q);
        RevealFrame(t, q);
      } else {
        assert Sweep(s, p, k) == t;
      }
    }
  }

  /**
   * revealCell grows the counter by exactly the number of squares it newly
   * reveals, and by at least one: no square is counted twice.
   */
  lemma {:induction false} RevealCount(s: State, p: Pos)
    requires Shaped(s.board, s.rows, s.cols) && InGrid(p, s.rows, s.cols) && !s.board[p.0][p.1].revealed
    ensures Reveal(s, p).revealedCells - s.revealedCells == |RevealedOf(Reveal(s, p).board)| - |RevealedOf(s.board)|
    ensures s.revealedCells < Reveal(s, p).revealedCells
    decreases Hidden(s), 1
  {
    var s1 := Uncover(s, p);
    var r := Reveal(s, p);
    UncoverCount(s, p);
    if s.board[p.0][p.1].mine {
      assert r == CheckWin(s1.(gameOver := true));
    } else if SurroundingMines(s1, p, 8) == 0 {
      assert r == CheckWin(Sweep(s1, p, 8));
      SweepCount(s1, p, 8);
    } else {
      assert r == CheckWin(s1);
    }
  }

  /** Marking a hidden square revealed adds one to the number of revealed squares. */
  lemma UncoverCount(s: State, p: Pos)
    requires Shaped(s.board, s.rows, s.cols) && InGrid(p, s.rows, s.cols) && !s.board[p.0][p.1].revealed
    ensures |RevealedOf(Uncover(s, p).board)| == |RevealedOf(s.board)| + 1
  {
    At(s.board, p);
  }

  /** The same for revealSurroundingCells, which may also reveal nothing. */
  lemma {:induction false} SweepCount(s: State, p: Pos, k: nat)
    requires Shaped(s.board, s.rows, s.cols) && k <= 8
    ensures Sweep(s, p, k).revealedCells - s.revealedCells == |RevealedOf(Sweep(s, p, k).board)| - |RevealedOf(s.board)|
    ensures s.revealedCells <= Sweep(s, p, k).revealedCells
    decreases Hidden(s), 2, k
  {
    if k == 0 {
      assert Sweep(s, p, k) == s;
    } else {
      SweepCount(s, p, k - 1);
      var t := Sweep(s, p, k - 1);
      var q := Shift(p, Direction(k - 1));
      if InGrid(q, t.rows, t.cols) && !t.board[q.0][q.1].revealed {
        assert Sweep(s, p, k) == Reveal(t, q);
        RevealCount(t, q);
      } else {
        assert Sweep(s, p, k) == t;
      }
    }
  }

  /** revealCell(p) reveals no mine other than p itself. */
  lemma {:induction false} RevealSafe(s: State, p: Pos)
    requires Shaped(s.board, s.rows, s.cols) && InGrid(p, s.rows, s.cols) && !s.board[p.0][p.1].revealed
    ensures (RevealedOf(Reveal(s, p).board) - RevealedOf(s.board)) * MinesOf(s.board) <= {p}
    decreases Hidden(s), 1
  {
    var s1 := Uncover(s, p);
    var r := Reveal(s, p);
    if s.board[p.0][p.1].mine {
      assert r == CheckWin(s1.(gameOver := true));
    } else if SurroundingMines(s1, p, 8) == 0 {
      assert r == CheckWin(Sweep(s1, p, 8));
      MinesAroundCount(s1, p);
      SweepSafe(s1, p, 8);
    } else {
      assert r == CheckWin(s1);
    }
  }

  /**
   * revealSurroundingCells around a square with no mined neighbour reveals
   * no mine: it only reveals neighbours, and the squares their own reveals reach.
   */
  lemma {:induction false} SweepSafe(s: State, p: Pos, k: nat)
    requires Shaped(s.board, s.rows, s.cols) && k <= 8
    requires Neighbours(p, s.rows, s.cols) * MinesOf(s.board) == {}
    ensures (RevealedOf(Sweep(s, p, k).board) - RevealedOf(s.board)) * MinesOf(s.board) == {}
    decreases Hidden(s), 2, k
  {
    if k == 0 {
      assert Sweep(s, p, k) == s;
    } else {
      SweepSafe(s, p, k - 1);
      SweepFrame(s, p, k - 1);
      var t := Sweep(s, p, k - 1);
      var q := Shift(p, Direction(k - 1));
      if InGrid(q, t.rows, t.cols) && !t.board[q.0][q.1].revealed {
        var r := Reveal(t, q);
        assert Sweep(s, p, k) == r;
        RevealSafe(t, q);
        DirectionAdjacent(p, k - 1);
        AdjacentUnmined(p, q, MinesOf(s.board), s.rows, s.cols);
        SafeCompose(RevealedOf(s.board), RevealedOf(t.board), RevealedOf(r.board), MinesOf(s.board), q);
      } else {
        assert Sweep(s, p, k) == t;
      }
    }
  }

  /**
   * revealCell(p) runs the flood fill to completion: every square it reveals
   * that has no mine around it ends with all its neighbours revealed.
   */
  lemma {:induction false} RevealCloses(s: State, p: Pos)
    requires Shaped(s.board, s.rows, s.cols) && InGrid(p, s.rows, s.cols) && !s.board[p.0][p.1].revealed
    ensures Closed(RevealedOf(Reveal(s, p).board), RevealedOf(s.board), MinesOf(s.board), s.rows, s.cols)
    decreases Hidden(s), 1
  {
    var s1 := Uncover(s, p);
    var r := Reveal(s, p);
    var mines := MinesOf(s.board);
    At(s.board, p);
    if s.board[p.0][p.1].mine {
      assert r == CheckWin(s1.(gameOver := true));
      assert !IsZero(p, mines, s.rows, s.cols);
    } else if SurroundingMines(s1, p, 8) == 0 {
      var s2 := Sweep(s1, p, 8);
      assert r == CheckWin(s2);
      SweepCloses(s1, p, 8);
      VisitedAll(p, s.rows, s.cols);
      SeedCloses(RevealedOf(s.board), RevealedOf(s1.board), RevealedOf(s2.board), p, mines, s.rows, s.cols);
    } else {
      assert r == CheckWin(s1);
      MinesAroundCount(s1, p);
      assert !IsZero(p, mines, s.rows, s.cols);
    }
  }

  /**
   * revealSurroundingCells(p) after k directions: every in-bounds neighbour
   * those directions reach is revealed, and the reveals it made completed
   * the flood fill.
   */
  lemma {:induction false} SweepCloses(s: State, p: Pos, k: nat)
    requires Shaped(s.board, s.rows, s.cols) && k <= 8
    ensures Visited(p, s.rows, s.cols, k) <= RevealedOf(Sweep(s, p, k).board)
    ensures Closed(RevealedOf(Sweep(s, p, k).board), RevealedOf(s.board), MinesOf(s.board), s.rows, s.cols)
    decreases Hidden(s), 2, k
  {
    if k == 0 {
      assert Sweep(s, p, k) == s;
    } else {
      SweepCloses(s, p, k - 1);
      SweepFrame(s, p, k - 1);
      var t := Sweep(s, p, k - 1);
      var q := Shift(p, Direction(k - 1));
      if InGrid(q, t.rows, t.cols) && !t.board[q.0][q.1].revealed {
        var r := Reveal(t, q);
        assert Sweep(s, p, k) == r;
        RevealCloses(t, q);
        ClosedCompose(RevealedOf(s.board), RevealedOf(t.board), RevealedOf(r.board), MinesOf(s.board), s.rows, s.cols);
      } else {
        assert Sweep(s, p, k) == t;
        At(t.board, q);
      }
    }
  }

  /**
   * revealCell(p) reveals nothing outside any region that holds p and that
   * the flood fill cannot leave: with RevealCloses, what it reveals is the
   * least such region, the zero squares connected to p and their border.
   */
  lemma {:induction false} RevealLeast(s: State, p: Pos, x: set<Pos>)
    requires Shaped(s.board, s.rows, s.cols) && InGrid(p, s.rows, s.cols) && !s.board[p.0][p.1].revealed
    requires p in x && ZeroClosed(x, RevealedOf(s.board), MinesOf(s.board), s.rows, s.cols)
    ensures RevealedOf(Reveal(s, p).board) <= RevealedOf(s.board) + x
    decreases Hidden(s), 1
  {
    var s1 := Uncover(s, p);
    var r := Reveal(s, p);
    At(s.board, p);
    if s.board[p.0][p.1].mine {
      assert r == CheckWin(s1.(gameOver := true));
    } else if SurroundingMines(s1, p, 8) == 0 {
      var s2 := Sweep(s1, p, 8);
      assert r == CheckWin(s2);
      UncoveredZero(s, p);
      assert Neighbours(p, s.rows, s.cols) <= x + RevealedOf(s.board);
      ZeroClosedGrows(x, RevealedOf(s.board), RevealedOf(s1.board), MinesOf(s.board), s.rows, s.cols);
      SweepLeast(s1, p, 8, x);
    } else {
      assert r == CheckWin(s1);
    }
  }

  /**
   * revealSurroundingCells(p), after k directions, stays inside a region
   * the flood fill cannot leave that holds all of p's neighbours.
   */
  lemma {:induction false} SweepLeast(s: State, p: Pos, k: nat, x: set<Pos>)
    requires Shaped(s.board, s.rows, s.cols) && k <= 8
    requires Neighbours(p, s.rows, s.cols) <= x + RevealedOf(s.board)
    requires ZeroClosed(x, RevealedOf(s.board), MinesOf(s.board), s.rows, s.cols)
    ensures RevealedOf(Sweep(s, p, k).board) <= RevealedOf(s.board) + x
    decreases Hidden(s), 2, k
  {
    if k == 0 {
      assert Sweep(s, p, k) == s;
    } else {
      SweepLeast(s, p, k - 1, x);
      SweepFrame(s, p, k - 1);
      var t := Sweep(s, p, k - 1);
      var q := Shift(p, Direction(k - 1));
      if InGrid(q, t.rows, t.cols) && !t.board[q.0][q.1].revealed {
        var r := Reveal(t, q);
        assert Sweep(s, p, k) == r;
        DirectionAdjacent(p, k - 1);
        At(t.board, q);
        assert q in x;
        ZeroClosedGrows(x, RevealedOf(s.board), RevealedOf(t.board), MinesOf(s.board), s.rows, s.cols);
        RevealLeast(t, q, x);
      } else {
        assert Sweep(s, p, k) == t;
      }
    }
  }

  /**
   * Every square revealCell(p) reveals besides p lies next to a zero square
   * it revealed. Removing any other square from what it reveals leaves a
   * region holding p; if no revealed zero square were next to the removed
   * one, that region would hold every neighbour of its zero squares
   * (RevealCloses), and RevealLeast would keep the reveal inside it.
   */
  lemma RevealSpreads(s: State, p: Pos)
    requires Shaped(s.board, s.rows, s.cols) && InGrid(p, s.rows, s.cols) && !s.board[p.0][p.1].revealed
    ensures Spread(RevealedOf(Reveal(s, p).board) - RevealedOf(s.board) - {p},
                   RevealedOf(Reveal(s, p).board) - RevealedOf(s.board), MinesOf(s.board), s.rows, s.cols)
  {
    var before := RevealedOf(s.board);
    var after := RevealedOf(Reveal(s, p).board);
    var mines := MinesOf(s.board);
    var added := after - before;
    RevealCloses(s, p);
    At(s.board, p);
    forall q | q in added - {p}
      ensures exists z :: z in added && IsZero(z, mines, s.rows, s.cols) && Adjacent(z, q)
    {
      if !exists z :: z in added && IsZero(z, mines, s.rows, s.cols) && Adjacent(z, q) {
        var x := added - {q};
        forall z | z in x && IsZero(z, mines, s.rows, s.cols)
          ensures Neighbours(z, s.rows, s.cols) <= x + before
        {
          assert Neighbours(z, s.rows, s.cols) <= after;
          assert q !in Neighbours(z, s.rows, s.cols);
        }
        assert ZeroClosed(x, before, mines, s.rows, s.cols);
        RevealLeast(s, p, x);
        assert false;
      }
    }
  }

  /**
   * When revealCell(p) ends the game: always on a mine; always when the
   * counter it leaves equals the number of safe squares; and otherwise only
   * if the game was over already or the counter crossed that number on the way.
   */
  lemma {:induction false} RevealEnds(s: State, p: Pos)
    requires Shaped(s.board, s.rows, s.cols) && InGrid(p, s.rows, s.cols) && !s.board[p.0][p.1].revealed
    ensures s.board[p.0][p.1].mine ==> Reveal(s, p).gameOver
    ensures Reveal(s, p).revealedCells == Target(s) ==> Reveal(s, p).gameOver
    ensures Reveal(s, p).gameOver ==>
      s.gameOver || s.board[p.0][p.1].mine || s.revealedCells < Target(s) <= Reveal(s, p).revealedCells
    decreases Hidden(s), 1
  {
    var s1 := Uncover(s, p);
    var r := Reveal(s, p);
    if s.board[p.0][p.1].mine {
      assert r == CheckWin(s1.(gameOver := true));
    } else if SurroundingMines(s1, p, 8) == 0 {
      assert r == CheckWin(Sweep(s1, p, 8));
      UncoveredZero(s, p);
      ZeroSweepEnds(s1, p);
    } else {
      assert r == CheckWin(s1);
    }
  }


  /**
   * revealSurroundingCells run to the end around a zero square: the target
   * stays, the counter does not fall, and the game ends only when the
   * counter crosses the target.
   */
  lemma ZeroSweepEnds(s: State, p: Pos)
    requires Shaped(s.board, s.rows, s.cols) && IsZero(p, MinesOf(s.board), s.rows, s.cols)
    ensures Target(Sweep(s, p, 8)) == Target(s)
    ensures s.revealedCells <= Sweep(s, p, 8).revealedCells
    ensures Sweep(s, p, 8).gameOver ==> s.gameOver || s.revealedCells < Target(s) <= Sweep(s, p, 8).revealedCells
    decreases Hidden(s), 3
  {
    SweepEnds(s, p, 8);
    SweepFrame(s, p, 8);
    SweepCount(s, p, 8);
  }

  /** A safe square whose count is 0 is, once revealed, a zero square: the flood fill starts there. */
  lemma UncoveredZero(s: State, p: Pos)
    requires Shaped(s.board, s.rows, s.cols) && InGrid(p, s.rows, s.cols)
    requires !s.board[p.0][p.1].mine && SurroundingMines(Uncover(s, p), p, 8) == 0
    ensures IsZero(p, MinesOf(Uncover(s, p).board), s.rows, s.cols)
  {
    At(s.board, p);
    MinesAroundCount(Uncover(s, p), p);
  }

  /** revealSurroundingCells around a zero square ends the game only when the counter crosses the target. */
  lemma {:induction false} SweepEnds(s: State, p: Pos, k: nat)
    requires Shaped(s.board, s.rows, s.cols) && k <= 8
    requires IsZero(p, MinesOf(s.board), s.rows, s.cols)
    ensures Sweep(s, p, k).gameOver ==>
      s.gameOver || s.revealedCells < Target(s) <= Sweep(s, p, k).revealedCells
    decreases Hidden(s), 2, k
  {
    if k > 0 {
      SweepEnds(s, p, k - 1);
      SweepFrame(s, p, k - 1);
      SweepCount(s, p, k - 1);
      var t := Sweep(s, p, k - 1);
      var q := Shift(p, Direction(k - 1));
      if InGrid(q, t.rows, t.cols) && !t.board[q.0][q.1].revealed {
        var r := Reveal(t, q);
        assert Sweep(s, p, k) == r;
        RevealEnds(t, q);
        RevealCount(t, q);
        assert Target(t) == Target(s);
        assert !t.board[q.0][q.1].mine by {
          DirectionAdjacent(p, k - 1);
          ZeroNeighbourIsSafe(p, q, MinesOf(s.board), s.rows, s.cols);
          At(t.board, q);
        }
        CrossStep(s.gameOver, t.gameOver, r.gameOver, s.revealedCells, t.revealedCells, r.revealedCells, Target(s));
      } else {
        assert Sweep(s, p, k) == t;
      }
    } else {
      assert Sweep(s, p, k) == s;
    }
  }

  /**
   * Two runs in a row that each end the game only when their counter
   * crosses `target`: together they do the same.
   */
  lemma CrossStep(g0: bool, g1: bool, g2: bool, a0: int, a1: int, a2: int, target: int)
    requires g1 ==> g0 || a0 < target <= a1
    requires g2 ==> g1 || a1 < target <= a2
    requires a0 <= a1 <= a2
    ensures g2 ==> g0 || a0 < target <= a2
  {
  }
}
