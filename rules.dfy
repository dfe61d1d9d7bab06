/** The board, the eight winning lines and the rules of play of the game engine
    in Tic-Tac-Toe.js: cells, `checkWin`, `getWinningCombination`, the full-board
    test, and the invariant that legal play from a reset board keeps. */
module Rules {

  datatype Option<T> = None | Some(value: T)

  /** The two symbols a player can place ("X" and "O" in the source). */
  datatype Player = X | O

  /** One cell of `boardState`: "" or a player's symbol. */
  datatype Cell = Empty | Mark(player: Player)

  /** A cell index, 0..8, row-major over the 3x3 grid. */
  type Index = i: int | 0 <= i < 9

  /** The nine cells of `boardState`. */
  type Board = b: seq<Cell> | |b| == 9 witness Blank

  const Blank: seq<Cell> := [Empty, Empty, Empty, Empty, Empty, Empty, Empty, Empty, Empty]

  function Other(p: Player): (q: Player)
    ensures q != p
  {
    if p == X then O else X
  }

  /** A winning line: three cell indices. */
  datatype Line = Line(a: Index, b: Index, c: Index)

  /** `winningCombos`: the rows, then the columns, then the diagonals. */
  const Lines: seq<Line> := [
    Line(0, 1, 2), Line(3, 4, 5), Line(6, 7, 8),
    Line(0, 3, 6), Line(1, 4, 7), Line(2, 5, 8),
    Line(0, 4, 8), Line(2, 4, 6)
  ]

  /** All three cells of line `l` hold `p`. */
  predicate Completes(b: Board, l: Line, p: Player)
  {
    b[l.a] == Mark(p) && b[l.b] == Mark(p) && b[l.c] == Mark(p)
  }

  /** `checkWin(p)`: some winning line is completely owned by `p`. */
  predicate Wins(b: Board, p: Player)
  {
    exists k :: 0 <= k < |Lines| && Completes(b, Lines[k], p)
  }

  /** `checkWin` spelled out line by line, in the order of `winningCombos`. */
  lemma WinsByLines(b: Board, p: Player)
    ensures Wins(b, p) <==>
      Completes(b, Line(0, 1, 2), p) || Completes(b, Line(3, 4, 5), p) || Completes(b, Line(6, 7, 8), p) ||
      Completes(b, Line(0, 3, 6), p) || Completes(b, Line(1, 4, 7), p) || Completes(b, Line(2, 5, 8), p) ||
      Completes(b, Line(0, 4, 8), p) || Completes(b, Line(2, 4, 6), p)
  {
    if Wins(b, p) {
      var k :| 0 <= k < |Lines| && Completes(b, Lines[k], p);
      assert k in {0, 1, 2, 3, 4, 5, 6, 7};
    } else {
      assert !Completes(b, Lines[0], p) && !Completes(b, Lines[1], p) && !Completes(b, Lines[2], p);
      assert !Completes(b, Lines[3], p) && !Completes(b, Lines[4], p) && !Completes(b, Lines[5], p);
      assert !Completes(b, Lines[6], p) && !Completes(b, Lines[7], p);
    }
  }

  /** `boardState.every(Boolean)`: no cell is empty. */
  predicate Full(b: Board)
  {
    forall i :: 0 <= i < 9 ==> b[i] != Empty
  }

  /** The search behind `getWinningCombination`, from position `k` of `Lines` on. */
  function FirstLineFrom(b: Board, p: Player, k: nat): (r: Option<Line>)
    requires k <= |Lines|
    ensures r.None? <==> forall j :: k <= j < |Lines| ==> !Completes(b, Lines[j], p)
    ensures r.Some? ==>
      exists j :: k <= j < |Lines| && Lines[j] == r.value && Completes(b, Lines[j], p) &&
        forall i :: k <= i < j ==> !Completes(b, Lines[i], p)
    decreases |Lines| - k
  {
    if k == |Lines| then None
    else if Completes(b, Lines[k], p) then Some(Lines[k])
    else FirstLineFrom(b, p, k + 1)
  }

  /** `getWinningCombination(p)`: the first line, in the order of `Lines`, that `p`
      owns completely; None (the source's null) exactly when `p` has not won. */
  function WinningCombination(b: Board, p: Player): (r: Option<Line>)
    ensures r.None? <==> !Wins(b, p)
    ensures r.Some? ==>
      exists j :: 0 <= j < |Lines| && Lines[j] == r.value && Completes(b, Lines[j], p) &&
        forall i :: 0 <= i < j ==> !Completes(b, Lines[i], p)
  {
    FirstLineFrom(b, p, 0)
  }

  /** The number of cells of `s` equal to `v`. */
  function Count(s: seq<Cell>, v: Cell): nat
  {
    if s == [] then 0 else (if s[0] == v then 1 else 0) + Count(s[1..], v)
  }

  /** Writing `c` into cell `i` changes each count by exactly what was removed and added. */
  lemma {:induction false} CountUpdate(s: seq<Cell>, i: nat, c: Cell, v: Cell)
    requires i < |s|
    ensures Count(s[i := c], v) + (if s[i] == v then 1 else 0) == Count(s, v) + (if c == v then 1 else 0)
    decreases i
  {
    if i > 0 {
      assert s[i := c][1..] == s[1..][i - 1 := c];
      CountUpdate(s[1..], i - 1, c, v);
    } else {
      assert s[i := c][1..] == s[1..];
    }
  }

  /** The count over a board, cell by cell. */
  lemma CountCells(b: Board, v: Cell)
    ensures Count(b, v) ==
      (if b[0] == v then 1 else 0) + (if b[1] == v then 1 else 0) + (if b[2] == v then 1 else 0) +
      (if b[3] == v then 1 else 0) + (if b[4] == v then 1 else 0) + (if b[5] == v then 1 else 0) +
      (if b[6] == v then 1 else 0) + (if b[7] == v then 1 else 0) + (if b[8] == v then 1 else 0)
  {
    var s1, s2, s3, s4 := b[1..], b[2..], b[3..], b[4..];
    var s5, s6, s7, s8, s9 := b[5..], b[6..], b[7..], b[8..], b[9..];
    assert s1[1..] == s2 && s2[1..] == s3 && s3[1..] == s4 && s4[1..] == s5;
    assert s5[1..] == s6 && s6[1..] == s7 && s7[1..] == s8 && s8[1..] == s9 && s9 == [];
    assert Count(b, v) == (if b[0] == v then 1 else 0) + Count(s1, v);
    assert Count(s1, v) == (if b[1] == v then 1 else 0) + Count(s2, v);
    assert Count(s2, v) == (if b[2] == v then 1 else 0) + Count(s3, v);
    assert Count(s3, v) == (if b[3] == v then 1 else 0) + Count(s4, v);
    assert Count(s4, v) == (if b[4] == v then 1 else 0) + Count(s5, v);
    assert Count(s5, v) == (if b[5] == v then 1 else 0) + Count(s6, v);
    assert Count(s6, v) == (if b[6] == v then 1 else 0) + Count(s7, v);
    assert Count(s7, v) == (if b[7] == v then 1 else 0) + Count(s8, v);
    assert Count(s8, v) == (if b[8] == v then 1 else 0);
  }

  /** Marking an empty cell leaves one empty cell fewer: the measure on which the
      search's recursion terminates. */
  lemma PlaceDecreasesEmpty(s: seq<Cell>, i: nat, p: Player)
    requires i < |s| && s[i] == Empty
    ensures Count(s[i := Mark(p)], Empty) == Count(s, Empty) - 1
  {
    CountUpdate(s, i, Mark(p), Empty);
  }

  /** There are never more than nine empty cells. */
  lemma {:induction false} CountBound(s: seq<Cell>, v: Cell)
    ensures Count(s, v) <= |s|
  {
    if s != [] {
      CountBound(s[1..], v);
    }
  }

  /** Marking an empty cell for `p` neither creates nor destroys a line of the other
      player: only `p`'s lines can change. */
  lemma PlaceKeepsOtherWins(b: Board, i: Index, p: Player, q: Player)
    requires b[i] == Empty && q != p
    ensures Wins(b[i := Mark(p)], q) <==> Wins(b, q)
  {
  }

  /** What holds between moves of a game in progress, starting from a reset board:
      nobody owns a line, a cell is still empty, X has played as often as O or once
      more, and it is X's turn exactly when both have played equally often. */
  predicate InPlay(b: Board, p: Player)
  {
    !Wins(b, X) && !Wins(b, O) && !Full(b) &&
    (Count(b, Mark(X)) == Count(b, Mark(O)) || Count(b, Mark(X)) == Count(b, Mark(O)) + 1) &&
    (p == X <==> Count(b, Mark(X)) == Count(b, Mark(O)))
  }

  /** `resetGame` starts a game in play: nine empty cells, X to move. */
  lemma ResetInPlay()
    ensures InPlay(Blank, X)
  {
    assert Blank[0] == Empty;
    assert Count(Blank, Mark(X)) == 0 && Count(Blank, Mark(O)) == 0 by {
      assert Blank[1..][1..][1..][1..][1..][1..][1..][1..][1..] == [];
    }
  }

  /** A legal move from a position in play: the other player still owns no line;
      and when the mover neither completes a line nor fills the board, the position
      is in play again with the other player to move. */
  lemma {:induction false} MoveKeepsInPlay(b: Board, p: Player, i: Index)
    requires InPlay(b, p) && b[i] == Empty
    ensures !Wins(b[i := Mark(p)], Other(p))
    ensures !Wins(b[i := Mark(p)], p) && !Full(b[i := Mark(p)]) ==> InPlay(b[i := Mark(p)], Other(p))
  {
    var b' := b[i := Mark(p)];
    PlaceKeepsOtherWins(b, i, p, Other(p));
    CountUpdate(b, i, Mark(p), Mark(X));
    CountUpdate(b, i, Mark(p), Mark(O));
  }
}
