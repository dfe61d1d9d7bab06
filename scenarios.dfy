/** Concrete positions: a row win with its highlighted line, a drawn full board,
    the computer taking a win, and the position where the search as written fails
    to block an immediate X win while the corrected search blocks it. */
module Scenarios {
  import opened Rules
  import opened Search
  import opened Play

  /** X completes the top row: X wins and the highlighted line is cells 0, 1, 2. */
  lemma RowWin()
    ensures var b: Board := [Mark(X), Mark(X), Empty, Mark(O), Mark(O), Empty, Empty, Empty, Empty];
      InPlay(b, X) && Wins(b[2 := Mark(X)], X) && !Wins(b[2 := Mark(X)], O) &&
      WinningCombination(b[2 := Mark(X)], X) == Some(Line(0, 1, 2))
  {
    var b: Board := [Mark(X), Mark(X), Empty, Mark(O), Mark(O), Empty, Empty, Empty, Empty];
    assert !Wins(b, X) by { WinsByLines(b, X); }
    assert !Wins(b, O) by { WinsByLines(b, O); }
    assert !Wins(b[2 := Mark(X)], O) by { WinsByLines(b[2 := Mark(X)], O); }
    assert Completes(b[2 := Mark(X)], Lines[0], X);
    assert b[5] == Empty;
    assert Count(b, Mark(X)) == 2 by { CountCells(b, Mark(X)); }
    assert Count(b, Mark(O)) == 2 by { CountCells(b, Mark(O)); }
  }

  /** A reachable draw: after X 0, O 1, X 2, O 4, X 3, O 5, X 7, O 6 the position is in
      play with X to move, and X's last move at 8 fills the board without a line. */
  lemma FullBoardDraw()
    ensures var b: Board := [Mark(X), Mark(O), Mark(X), Mark(X), Mark(O), Mark(O), Mark(O), Mark(X), Empty];
      InPlay(b, X) && Full(b[8 := Mark(X)]) && !Wins(b[8 := Mark(X)], X) && !Wins(b[8 := Mark(X)], O)
  {
    var b: Board := [Mark(X), Mark(O), Mark(X), Mark(X), Mark(O), Mark(O), Mark(O), Mark(X), Empty];
    var f := b[8 := Mark(X)];
    assert !Wins(b, X) by { WinsByLines(b, X); }
    assert !Wins(b, O) by { WinsByLines(b, O); }
    assert !Wins(f, X) by { WinsByLines(f, X); }
    assert !Wins(f, O) by { WinsByLines(f, O); }
    assert Count(b, Mark(X)) == 4 by { CountCells(b, Mark(X)); }
    assert Count(b, Mark(O)) == 4 by { CountCells(b, Mark(O)); }
    assert b[8] == Empty;
  }

  /** O can complete the top row at 2 while X threatens 5: both searches take 2. */
  lemma WinBeforeBlock()
    ensures var b: Board := [Mark(O), Mark(O), Empty, Mark(X), Mark(X), Empty, Empty, Empty, Empty];
      BestMove(b) == Some(2) && CorrectedBestMove(b) == Some(2)
  {
    var b: Board := [Mark(O), Mark(O), Empty, Mark(X), Mark(X), Empty, Empty, Empty, Empty];
    assert WinningCell(b, 2, O) by {
      assert Completes(b[2 := Mark(O)], Lines[0], O);
    }
    BestMoveAsWritten(b);
    CorrectedTakesWin(b);
  }

  /** X threatens the bottom row at 8 and O has no line to complete. As written the
      computer plays 0, after which X wins at 8. */
  lemma AsWrittenMissesBlock()
    ensures var b: Board := [Empty, Empty, Empty, Mark(O), Empty, Empty, Mark(X), Mark(X), Empty];
      InPlay(b, O) && BestMove(b) == Some(0) && WinningCell(b[0 := Mark(O)], 8, X)
  {
    var b: Board := [Empty, Empty, Empty, Mark(O), Empty, Empty, Mark(X), Mark(X), Empty];
    assert !Wins(b, X) by { WinsByLines(b, X); }
    assert !Wins(b, O) by { WinsByLines(b, O); }
    assert b[0] == Empty;
    assert Count(b, Mark(X)) == 2 by { CountCells(b, Mark(X)); }
    assert Count(b, Mark(O)) == 1 by { CountCells(b, Mark(O)); }
    assert Completes(b[0 := Mark(O)][8 := Mark(X)], Lines[2], X);
    forall j: Index ensures !WinningCell(b, j, O) {
      WinsByLines(b[j := Mark(O)], O);
    }
    BestMoveAsWritten(b);
  }

  /** On the same position the corrected search blocks X at 8. */
  lemma CorrectedBlocksAtEight()
    ensures var b: Board := [Empty, Empty, Empty, Mark(O), Empty, Empty, Mark(X), Mark(X), Empty];
      CorrectedBestMove(b) == Some(8)
  {
    var b: Board := [Empty, Empty, Empty, Mark(O), Empty, Empty, Mark(X), Mark(X), Empty];
    forall j: Index ensures !WinningCell(b, j, O) {
      WinsByLines(b[j := Mark(O)], O);
    }
    forall j: Index | j != 8 ensures !WinningCell(b, j, X) {
      WinsByLines(b[j := Mark(X)], X);
    }
    assert WinningCell(b, 8, X) by {
      assert Completes(b[8 := Mark(X)], Lines[2], X);
    }
    CorrectedBlocksThreat(b, 8);
  }

  /** The game object after X 0, O 3: the game goes on with X to move. */
  method FirstRound() returns (g: Game)
    ensures fresh(g) && fresh(g.board) && g.Valid()
    ensures g.active && g.current == X && g.tally == Tally(0, 0, 0)
    ensures g.board[..] == [Mark(X), Empty, Empty, Mark(O), Empty, Empty, Empty, Empty, Empty]
  {
    ghost var b1: Board := Blank[0 := Mark(X)];
    ghost var b2: Board := b1[3 := Mark(O)];
    assert b2 == [Mark(X), Empty, Empty, Mark(O), Empty, Empty, Empty, Empty, Empty];
    assert !Wins(b1, X) && !Full(b1) by { WinsByLines(b1, X); assert b1[1] == Empty; }
    assert !Wins(b2, O) && !Full(b2) by { WinsByLines(b2, O); assert b2[1] == Empty; }
    g := new Game();
    g.MakeMove(0);
    assert g.board[..] == b1;
    assert g.board[3] == Empty;
    g.MakeMove(3);
  }

  /** Then X 1, O 4: still in play, X to move. */
  method SecondRound() returns (g: Game)
    ensures fresh(g) && fresh(g.board) && g.Valid()
    ensures g.active && g.current == X && g.tally == Tally(0, 0, 0)
    ensures g.board[..] == [Mark(X), Mark(X), Empty, Mark(O), Mark(O), Empty, Empty, Empty, Empty]
  {
    g := FirstRound();
    ghost var b0: Board := g.board[..];
    ghost var b1: Board := b0[1 := Mark(X)];
    ghost var b2: Board := b1[4 := Mark(O)];
    assert b2 == [Mark(X), Mark(X), Empty, Mark(O), Mark(O), Empty, Empty, Empty, Empty];
    assert !Wins(b1, X) && !Full(b1) by { WinsByLines(b1, X); assert b1[2] == Empty; }
    assert !Wins(b2, O) && !Full(b2) by { WinsByLines(b2, O); assert b2[2] == Empty; }
    g.MakeMove(1);
    assert g.board[..] == b1;
    assert g.board[4] == Empty;
    g.MakeMove(4);
  }

  /** X then takes the top row: the game ends, X's win is counted, the highlighted
      line is cells 0, 1, 2, and a further click changes nothing. */
  method TopRowMatch() returns (g: Game)
    ensures g.Valid() && !g.active && g.current == X && g.tally == Tally(1, 0, 0)
    ensures g.board[..] == [Mark(X), Mark(X), Mark(X), Mark(O), Mark(O), Empty, Empty, Empty, Empty]
    ensures WinningCombination(g.board[..], X) == Some(Line(0, 1, 2))
  {
    g := SecondRound();
    ghost var b1: Board := g.board[..][2 := Mark(X)];
    assert b1 == [Mark(X), Mark(X), Mark(X), Mark(O), Mark(O), Empty, Empty, Empty, Empty];
    assert Completes(b1, Lines[0], X);
    g.MakeMove(2);
    assert g.board[..] == b1;
    g.MakeMove(5);
  }

  /** Through the class: from the position of `FullBoardDraw` with X to move, X's
      move at 8 ends the game as a draw and bumps only the draws counter. */
  method DrawMatch(g: Game)
    requires g.Valid() && g.active && g.current == X
    requires g.board[..] == [Mark(X), Mark(O), Mark(X), Mark(X), Mark(O), Mark(O), Mark(O), Mark(X), Empty]
    modifies g, g.board
    ensures g.Valid() && !g.active && g.current == X && g.Consistent()
    ensures g.board[..] == [Mark(X), Mark(O), Mark(X), Mark(X), Mark(O), Mark(O), Mark(O), Mark(X), Mark(X)]
    ensures g.tally == old(g.tally).(draws := old(g.tally).draws + 1)
  {
    FullBoardDraw();
    g.MakeMove(8);
  }
}
