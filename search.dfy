/** The computer's move choice in Tic-Tac-Toe.js: `getRandomMove`, `minimax` and
    `getBestMove`, stated as functions on board values. The in-place versions of
    `minimax` and `getBestMove` (module Play) are proved equal to these.

    `minimax` as written tests for wins with `checkWin`, which reads the live game
    board and not the `state` it searches; `Evaluate` keeps that board as the
    parameter `g`. `CorrectedEvaluate` is the search with the wins tested on the
    searched position, used for the finding in README.md. */
module Search {
  import opened Rules

  // ---------------------------------------------------------------- random move

  /** The map/filter of `getRandomMove`: the indices of the empty cells of `b` from
      `i` on, in increasing order. */
  function EmptyFrom(b: Board, i: nat): (r: seq<Index>)
    requires i <= 9
    ensures forall k :: 0 <= k < |r| ==> i <= r[k] && b[r[k]] == Empty
    ensures forall k, l :: 0 <= k < l < |r| ==> r[k] < r[l]
    ensures forall j :: i <= j < 9 && b[j] == Empty ==> j in r
    decreases 9 - i
  {
    if i == 9 then []
    else if b[i] == Empty then [i] + EmptyFrom(b, i + 1)
    else EmptyFrom(b, i + 1)
  }

  /** The empty cells of `b`, in increasing order (the array `empty`). */
  function EmptyCells(b: Board): (r: seq<Index>)
    ensures forall k :: 0 <= k < |r| ==> b[r[k]] == Empty
    ensures forall k, l :: 0 <= k < l < |r| ==> r[k] < r[l]
    ensures forall j :: 0 <= j < 9 ==> (b[j] == Empty <==> j in r)
  {
    EmptyFrom(b, 0)
  }

  /** `getRandomMove`, with `draw` the value of `Math.floor(Math.random() * empty.length)`.
      A draw outside the empty cells reads past the array: undefined, here None. */
  function RandomMove(b: Board, draw: nat): (r: Option<Index>)
    ensures r.Some? ==> b[r.value] == Empty
    ensures r.Some? <==> draw < |EmptyCells(b)|
    ensures Full(b) ==> r.None?
  {
    var empty := EmptyCells(b);
    if draw < |empty| then Some(empty[draw]) else None
  }

  /** Every empty cell is the random move for exactly one draw below the number of
      empty cells, so a uniform draw picks each empty cell with equal chance. */
  lemma RandomMoveCoversEmpty(b: Board, j: Index)
    requires b[j] == Empty
    ensures exists draw: nat :: draw < |EmptyCells(b)| && RandomMove(b, draw) == Some(j)
    ensures forall d1: nat, d2: nat :: d1 < d2 < |EmptyCells(b)| ==> RandomMove(b, d1) != RandomMove(b, d2)
  {
    var empty := EmptyCells(b);
    var k :| 0 <= k < |empty| && empty[k] == j;
    assert RandomMove(b, k) == Some(j);
    forall d1: nat, d2: nat | d1 < d2 < |empty|
      ensures RandomMove(b, d1) != RandomMove(b, d2)
    {
      assert empty[d1] < empty[d2];
    }
  }

  // ---------------------------------------------------------------- minimax as written

  /** The symbol placed by the side to move. */
  function Mover(maximizing: bool): Player
  {
    if maximizing then O else X
  }

  /** `minimax(state, depth, isMaximizingPlayer)` as written: `g` is the live board
      that `checkWin` reads, `s` the position searched. The terminal tests look at
      `g`, the full-board test at `s`. */
  function Evaluate(g: Board, s: Board, depth: nat, maximizing: bool): int
    decreases Count(s, Empty), 1
  {
    if Wins(g, O) then 10 - depth
    else if Wins(g, X) then depth - 10
    else if Full(s) then 0
    else EvaluateFrom(g, s, depth, maximizing, 0, if maximizing then -11 else 11)
  }

  /** The `forEach` of `minimax` from cell `i` on, with `best` the running `bestEval`
      (the sentinels -11 and 11 stand for -Infinity and Infinity). */
  function EvaluateFrom(g: Board, s: Board, depth: nat, maximizing: bool, i: nat, best: int): int
    requires i <= 9
    decreases Count(s, Empty), 0, 9 - i
  {
    if i == 9 then best
    else if s[i] != Empty then EvaluateFrom(g, s, depth, maximizing, i + 1, best)
    else
      PlaceDecreasesEmpty(s, i, Mover(maximizing));
      var e := Evaluate(g, s[i := Mark(Mover(maximizing))], depth + 1, !maximizing);
      EvaluateFrom(g, s, depth, maximizing, i + 1, if maximizing then Max(best, e) else Min(best, e))
  }

  function Max(a: int, b: int): int { if a < b then b else a }
  function Min(a: int, b: int): int { if a < b then a else b }

  /** The loop of `minimax` yields its start value or one child's value, and that
      value is the maximum (for the maximizing side) or minimum of them all. */
  lemma {:induction false} EvaluateFromBounds(g: Board, s: Board, depth: nat, maximizing: bool, i: nat, best: int)
    requires i <= 9
    ensures var r := EvaluateFrom(g, s, depth, maximizing, i, best);
      (r == best || exists j :: i <= j < 9 && s[j] == Empty && r == Evaluate(g, s[j := Mark(Mover(maximizing))], depth + 1, !maximizing)) &&
      (maximizing ==> r >= best && forall j :: i <= j < 9 && s[j] == Empty ==> r >= Evaluate(g, s[j := Mark(Mover(maximizing))], depth + 1, !maximizing)) &&
      (!maximizing ==> r <= best && forall j :: i <= j < 9 && s[j] == Empty ==> r <= Evaluate(g, s[j := Mark(Mover(maximizing))], depth + 1, !maximizing))
    decreases 9 - i
  {
    if i < 9 {
      if s[i] != Empty {
        EvaluateFromBounds(g, s, depth, maximizing, i + 1, best);
      } else {
        var e := Evaluate(g, s[i := Mark(Mover(maximizing))], depth + 1, !maximizing);
        EvaluateFromBounds(g, s, depth, maximizing, i + 1, if maximizing then Max(best, e) else Min(best, e));
      }
    }
  }

  /** Because the terminal tests read the live board `g`, which the search never
      changes, `minimax` as written is 10 - depth when O owns a line on `g`,
      depth - 10 when X does, and 0 otherwise, whatever position it searches. */
  lemma {:induction false} EvaluateAsWritten(g: Board, s: Board, depth: nat, maximizing: bool)
    ensures Evaluate(g, s, depth, maximizing) ==
      if Wins(g, O) then 10 - depth else if Wins(g, X) then depth - 10 else 0
    decreases Count(s, Empty)
  {
    if !Wins(g, O) && !Wins(g, X) && !Full(s) {
      var m := Mover(maximizing);
      forall j | 0 <= j < 9 && s[j] == Empty
        ensures Evaluate(g, s[j := Mark(m)], depth + 1, !maximizing) == 0
      {
        PlaceDecreasesEmpty(s, j, m);
        EvaluateAsWritten(g, s[j := Mark(m)], depth + 1, !maximizing);
      }
      EvaluateFromBounds(g, s, depth, maximizing, 0, if maximizing then -11 else 11);
      var j :| 0 <= j < 9 && s[j] == Empty;
    }
  }

  // ---------------------------------------------------------------- best move

  /** The loop of `getBestMove` from cell `i` on over the scores `sc` of the cells:
      an empty cell replaces the running choice only when its score is strictly
      greater than `best`. */
  function BestFrom(b: Board, sc: seq<int>, i: nat, best: int, move: Option<Index>): Option<Index>
    requires |sc| == 9 && i <= 9
    decreases 9 - i
  {
    if i == 9 then move
    else if b[i] == Empty && sc[i] > best then BestFrom(b, sc, i + 1, sc[i], Some(i))
    else BestFrom(b, sc, i + 1, best, move)
  }

  /** What the loop of `getBestMove` has established after cells 0..i-1. */
  predicate BestPrefix(b: Board, sc: seq<int>, i: nat, best: int, move: Option<Index>)
    requires |sc| == 9 && i <= 9
  {
    (move.None? ==> best == -11 && forall j :: 0 <= j < i ==> b[j] != Empty) &&
    (move.Some? ==>
      move.value < i && b[move.value] == Empty && best == sc[move.value] &&
      (forall j :: 0 <= j < i && b[j] == Empty ==> sc[j] <= best) &&
      (forall j :: 0 <= j < move.value && b[j] == Empty ==> sc[j] < best))
  }

  /** The loop of `getBestMove` carries `BestPrefix` from cell `i` to the end. */
  lemma {:induction false} BestFromArgmax(b: Board, sc: seq<int>, i: nat, best: int, move: Option<Index>)
    requires |sc| == 9 && i <= 9
    requires forall j :: 0 <= j < 9 && b[j] == Empty ==> sc[j] > -11
    requires BestPrefix(b, sc, i, best, move)
    ensures var r := BestFrom(b, sc, i, best, move); BestPrefix(b, sc, 9, if r.Some? then sc[r.value] else -11, r)
    decreases 9 - i
  {
    if i < 9 {
      if b[i] == Empty && sc[i] > best {
        BestFromArgmax(b, sc, i + 1, sc[i], Some(i));
      } else {
        BestFromArgmax(b, sc, i + 1, best, move);
      }
    }
  }

  /** `getBestMove` over scores `sc` that all beat the sentinel: it finds no move
      exactly when the board is full, and otherwise returns an empty cell of maximal
      score, the first such in index order. */
  lemma FirstArgmax(b: Board, sc: seq<int>)
    requires |sc| == 9
    requires forall j :: 0 <= j < 9 && b[j] == Empty ==> sc[j] > -11
    ensures var r := BestFrom(b, sc, 0, -11, None);
      (r.None? <==> Full(b)) &&
      (r.Some? ==>
        b[r.value] == Empty &&
        (forall j :: 0 <= j < 9 && b[j] == Empty ==> sc[j] <= sc[r.value]) &&
        (forall j :: 0 <= j < r.value && b[j] == Empty ==> sc[j] < sc[r.value]))
  {
    BestFromArgmax(b, sc, 0, -11, None);
  }

  /** The score `getBestMove` gives each cell: O is placed on the live board, which
      `minimax` then reads, and the search starts on a copy of it, X to move. */
  function Scores(b: Board): (sc: seq<int>)
    ensures |sc| == 9
  {
    seq(9, i requires 0 <= i < 9 => var t := b[i := Mark(O)]; Evaluate(t, t, 0, false))
  }

  /** `getBestMove` on board `b`; None is the source's undefined. */
  function BestMove(b: Board): Option<Index>
  {
    BestFrom(b, Scores(b), 0, -11, None)
  }

  /** Cell `j` is empty and marking it for `p` completes a line of `p`. */
  predicate WinningCell(b: Board, j: Index, p: Player)
  {
    b[j] == Empty && Wins(b[j := Mark(p)], p)
  }

  /** As written, `getBestMove` returns the first empty cell where O completes a line
      and, when there is none, the first empty cell; it returns nothing only on a
      full board. It never looks further ahead than O's own next move. */
  lemma BestMoveAsWritten(b: Board)
    ensures BestMove(b).None? <==> Full(b)
    ensures (exists j :: WinningCell(b, j, O)) ==>
      BestMove(b).Some? && WinningCell(b, BestMove(b).value, O) &&
      forall j :: 0 <= j < BestMove(b).value ==> !WinningCell(b, j, O)
    ensures (forall j :: !WinningCell(b, j, O)) && !Full(b) ==>
      BestMove(b).Some? && b[BestMove(b).value] == Empty &&
      forall j :: 0 <= j < BestMove(b).value ==> b[j] != Empty
  {
    var sc := Scores(b);
    var base := if Wins(b, X) then -10 else 0;
    forall j | 0 <= j < 9 && b[j] == Empty
      ensures sc[j] == if WinningCell(b, j, O) then 10 else base
    {
      var t := b[j := Mark(O)];
      EvaluateAsWritten(t, t, 0, false);
      PlaceKeepsOtherWins(b, j, O, X);
    }
    FirstArgmax(b, sc);
  }

  // ---------------------------------------------------------------- minimax corrected

  /** `minimax` with its terminal tests on the searched position `s`, as the
      depth-weighted scoring intends: an O line scores 10 - depth, an X line
      depth - 10, a full board 0. */
  function CorrectedEvaluate(s: Board, depth: nat, maximizing: bool): int
    decreases Count(s, Empty), 1
  {
    if Wins(s, O) then 10 - depth
    else if Wins(s, X) then depth - 10
    else if Full(s) then 0
    else CorrectedFrom(s, depth, maximizing, 0, if maximizing then -11 else 11)
  }

  function CorrectedFrom(s: Board, depth: nat, maximizing: bool, i: nat, best: int): int
    requires i <= 9
    decreases Count(s, Empty), 0, 9 - i
  {
    if i == 9 then best
    else if s[i] != Empty then CorrectedFrom(s, depth, maximizing, i + 1, best)
    else
      PlaceDecreasesEmpty(s, i, Mover(maximizing));
      var e := CorrectedEvaluate(s[i := Mark(Mover(maximizing))], depth + 1, !maximizing);
      CorrectedFrom(s, depth, maximizing, i + 1, if maximizing then Max(best, e) else Min(best, e))
  }

  /** The loop of the corrected search yields its start value or one child's value,
      the maximum (maximizing side) or minimum of them all. */
  lemma {:induction false} CorrectedFromBounds(s: Board, depth: nat, maximizing: bool, i: nat, best: int)
    requires i <= 9
    ensures var r := CorrectedFrom(s, depth, maximizing, i, best);
      (r == best || exists j :: i <= j < 9 && s[j] == Empty && r == CorrectedEvaluate(s[j := Mark(Mover(maximizing))], depth + 1, !maximizing)) &&
      (maximizing ==> r >= best && forall j :: i <= j < 9 && s[j] == Empty ==> r >= CorrectedEvaluate(s[j := Mark(Mover(maximizing))], depth + 1, !maximizing)) &&
      (!maximizing ==> r <= best && forall j :: i <= j < 9 && s[j] == Empty ==> r <= CorrectedEvaluate(s[j := Mark(Mover(maximizing))], depth + 1, !maximizing))
    decreases 9 - i
  {
    if i < 9 {
      if s[i] != Empty {
        CorrectedFromBounds(s, depth, maximizing, i + 1, best);
      } else {
        var e := CorrectedEvaluate(s[i := Mark(Mover(maximizing))], depth + 1, !maximizing);
        CorrectedFromBounds(s, depth, maximizing, i + 1, if maximizing then Max(best, e) else Min(best, e));
      }
    }
  }

  /** X cannot win sooner than its next move: a position searched at `depth` scores
      at least depth - 10, and at least depth - 9 when X owns no line yet. */
  lemma {:induction false} CorrectedLowerBound(s: Board, depth: nat, maximizing: bool)
    requires depth + Count(s, Empty) <= 9
    ensures CorrectedEvaluate(s, depth, maximizing) >= depth - 10
    ensures !Wins(s, X) ==> CorrectedEvaluate(s, depth, maximizing) >= depth - 9
    decreases Count(s, Empty)
  {
    if !Wins(s, O) && !Wins(s, X) && !Full(s) {
      var m := Mover(maximizing);
      forall j | 0 <= j < 9 && s[j] == Empty
        ensures CorrectedEvaluate(s[j := Mark(m)], depth + 1, !maximizing) >= depth - 9
      {
        PlaceDecreasesEmpty(s, j, m);
        CorrectedLowerBound(s[j := Mark(m)], depth + 1, !maximizing);
      }
      CorrectedFromBounds(s, depth, maximizing, 0, if maximizing then -11 else 11);
      var j :| 0 <= j < 9 && s[j] == Empty;
    }
  }

  /** O cannot win sooner than its next move: a position searched at `depth` scores
      at most 10 - depth, and at most 9 - depth when O owns no line yet. */
  lemma {:induction false} CorrectedUpperBound(s: Board, depth: nat, maximizing: bool)
    requires depth + Count(s, Empty) <= 9
    ensures CorrectedEvaluate(s, depth, maximizing) <= 10 - depth
    ensures !Wins(s, O) ==> CorrectedEvaluate(s, depth, maximizing) <= 9 - depth
    decreases Count(s, Empty)
  {
    if !Wins(s, O) && !Wins(s, X) && !Full(s) {
      var m := Mover(maximizing);
      forall j | 0 <= j < 9 && s[j] == Empty
        ensures CorrectedEvaluate(s[j := Mark(m)], depth + 1, !maximizing) <= 9 - depth
      {
        PlaceDecreasesEmpty(s, j, m);
        CorrectedUpperBound(s[j := Mark(m)], depth + 1, !maximizing);
      }
      CorrectedFromBounds(s, depth, maximizing, 0, if maximizing then -11 else 11);
      var j :| 0 <= j < 9 && s[j] == Empty;
    }
  }

  /** The scores `getBestMove` would see with the corrected search. */
  function CorrectedScores(b: Board): (sc: seq<int>)
    ensures |sc| == 9
  {
    seq(9, i requires 0 <= i < 9 => var t := b[i := Mark(O)]; CorrectedEvaluate(t, 0, false))
  }

  /** `getBestMove` over the corrected search. */
  function CorrectedBestMove(b: Board): Option<Index>
  {
    BestFrom(b, CorrectedScores(b), 0, -11, None)
  }

  /** Every corrected score of an empty cell lies in [-10, 10], above the sentinel. */
  lemma CorrectedScoresInRange(b: Board)
    ensures forall j :: 0 <= j < 9 && b[j] == Empty ==> -10 <= CorrectedScores(b)[j] <= 10
  {
    forall j | 0 <= j < 9 && b[j] == Empty
      ensures -10 <= CorrectedScores(b)[j] <= 10
    {
      var t := b[j := Mark(O)];
      CountBound(t, Empty);
      CorrectedLowerBound(t, 0, false);
      CorrectedUpperBound(t, 0, false);
    }
  }

  /** The corrected score of an empty cell is 10 exactly when O completes a line
      there, and at most 9 otherwise. */
  lemma CorrectedScoreOfCell(b: Board, j: Index)
    requires b[j] == Empty
    ensures WinningCell(b, j, O) ==> CorrectedScores(b)[j] == 10
    ensures !WinningCell(b, j, O) ==> -10 <= CorrectedScores(b)[j] <= 9
  {
    var t := b[j := Mark(O)];
    assert CorrectedScores(b)[j] == CorrectedEvaluate(t, 0, false);
    CountBound(t, Empty);
    CorrectedLowerBound(t, 0, false);
    CorrectedUpperBound(t, 0, false);
  }

  /** With the corrected search, a cell where O completes a line is taken, the first
      such in index order. */
  lemma CorrectedTakesWin(b: Board)
    requires exists j :: WinningCell(b, j, O)
    ensures CorrectedBestMove(b).Some?
    ensures WinningCell(b, CorrectedBestMove(b).value, O)
    ensures forall j :: 0 <= j < CorrectedBestMove(b).value ==> !WinningCell(b, j, O)
  {
    var sc := CorrectedScores(b);
    forall j: Index | b[j] == Empty
      ensures WinningCell(b, j, O) ==> sc[j] == 10
      ensures !WinningCell(b, j, O) ==> -10 <= sc[j] <= 9
    {
      CorrectedScoreOfCell(b, j);
    }
    FirstArgmax(b, sc);
    var w: Index :| WinningCell(b, w, O);
    assert sc[w] == 10;
  }

  /** Leaving X's winning cell `k` open scores at most -9: X completes its line at
      depth 1. */
  lemma CorrectedLeavesThreat(b: Board, k: Index, i: Index)
    requires !Wins(b, X)
    requires !WinningCell(b, i, O)
    requires WinningCell(b, k, X)
    requires b[i] == Empty && i != k
    ensures CorrectedScores(b)[i] <= -9
  {
    var t := b[i := Mark(O)];
    assert CorrectedScores(b)[i] == CorrectedEvaluate(t, 0, false);
    PlaceKeepsOtherWins(b, i, O, X);
    PlaceKeepsOtherWins(t, k, X, O);
    PlaceKeepsOtherWins(b[k := Mark(X)], i, O, X);
    assert t[k := Mark(X)] == b[k := Mark(X)][i := Mark(O)];
    assert CorrectedEvaluate(t[k := Mark(X)], 1, true) == -9;
    CorrectedFromBounds(t, 0, false, 0, 11);
  }

  /** Taking X's only winning cell `k` scores at least -8: no reply of X completes a
      line at depth 1. */
  lemma CorrectedBlockHolds(b: Board, k: Index)
    requires !Wins(b, X)
    requires !WinningCell(b, k, O)
    requires b[k] == Empty
    requires forall j :: j != k ==> !WinningCell(b, j, X)
    ensures CorrectedScores(b)[k] >= -8
  {
    var t := b[k := Mark(O)];
    assert CorrectedScores(b)[k] == CorrectedEvaluate(t, 0, false);
    PlaceKeepsOtherWins(b, k, O, X);
    if !Full(t) {
      forall j: Index | t[j] == Empty
        ensures CorrectedEvaluate(t[j := Mark(X)], 1, true) >= -8
      {
        assert !WinningCell(b, j, X);
        PlaceKeepsOtherWins(b[j := Mark(X)], k, O, X);
        assert t[j := Mark(X)] == b[j := Mark(X)][k := Mark(O)];
        PlaceDecreasesEmpty(b, k, O);
        PlaceDecreasesEmpty(t, j, X);
        CountBound(b, Empty);
        CorrectedLowerBound(t[j := Mark(X)], 1, true);
      }
      CorrectedFromBounds(t, 0, false, 0, 11);
    }
  }

  /** With the corrected search, when O cannot complete a line and X threatens to
      complete one in exactly one cell `k`, the computer blocks `k`. */
  lemma CorrectedBlocksThreat(b: Board, k: Index)
    requires !Wins(b, X)
    requires forall j :: !WinningCell(b, j, O)
    requires WinningCell(b, k, X)
    requires forall j :: j != k ==> !WinningCell(b, j, X)
    ensures CorrectedBestMove(b) == Some(k)
  {
    var sc := CorrectedScores(b);
    forall i: Index | b[i] == Empty && i != k
      ensures sc[i] <= -9
    {
      CorrectedLeavesThreat(b, k, i);
    }
    CorrectedBlockHolds(b, k);
    CorrectedScoresInRange(b);
    FirstArgmax(b, sc);
  }
}
