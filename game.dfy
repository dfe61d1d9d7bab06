/** The module-level game state of Tic-Tac-Toe.js (`boardState`, `currentPlayer`,
    `gameActive`) as a class over a nine-cell array, with the operations that
    update it in place: `makeMove`, `endGame`'s outcome and counters, `resetGame`,
    and the place-and-undo searches `minimax` and `getBestMove`. */
module Play {
  import opened Rules
  import opened Search

  /** What `endGame` is told: a player's win or a draw. */
  datatype Outcome = Won(player: Player) | Draw

  /** The three stored counters of `endGame`: "playerWins" (X), "aiWins" (O), "draws". */
  datatype Tally = Tally(playerWins: nat, aiWins: nat, draws: nat)

  /** The counter `endGame` bumps for `outcome`: exactly one of the three grows by one. */
  function Record(t: Tally, outcome: Outcome): (r: Tally)
    ensures r.playerWins + r.aiWins + r.draws == t.playerWins + t.aiWins + t.draws + 1
    ensures r.playerWins == t.playerWins + (if outcome == Won(X) then 1 else 0)
    ensures r.aiWins == t.aiWins + (if outcome == Won(O) then 1 else 0)
  {
    match outcome
    case Won(X) => t.(playerWins := t.playerWins + 1)
    case Won(O) => t.(aiWins := t.aiWins + 1)
    case Draw => t.(draws := t.draws + 1)
  }

  class Game {
    var board: array<Cell>
    var current: Player
    var active: bool
    var tally: Tally

    ghost predicate Valid()
      reads this
    {
      board.Length == 9
    }

    /** While the game is active, the position is one that legal play from a reset
        board reaches, with `current` to move. */
    ghost predicate Consistent()
      reads this, board
      requires Valid()
    {
      active ==> InPlay(board[..], current)
    }

    /** The module's initial values: nine empty cells, X to move, game active. */
    constructor ()
      ensures Valid() && fresh(board) && Consistent()
      ensures board[..] == Blank && current == X && active && tally == Tally(0, 0, 0)
    {
      board := new Cell[9](_ => Empty);
      current := X;
      active := true;
      tally := Tally(0, 0, 0);
      new;
      assert board[..] == Blank;
      ResetInPlay();
    }

    /** `endGame(outcome)`: the game stops and the outcome's counter is bumped. */
    method EndGame(outcome: Outcome)
      modifies this`active, this`tally
      ensures !active && tally == Record(old(tally), outcome)
    {
      active := false;
      tally := Record(tally, outcome);
    }

    /** `makeMove(index)`. */
    method MakeMove(index: Index)
      requires Valid()
      modifies this, board
      ensures Valid() && board == old(board)
      // A move after the game has ended or on a taken cell changes nothing.
      ensures !old(active) || old(board[index]) != Empty ==>
        board[..] == old(board[..]) && current == old(current) && active == old(active) && tally == old(tally)
      // A legal move marks exactly the chosen cell with the mover's symbol.
      ensures old(active) && old(board[index]) == Empty ==>
        board[..] == old(board[..])[index := Mark(old(current))]
      // A completed line ends the game as the mover's win, even on a full board.
      ensures old(active) && old(board[index]) == Empty && Wins(board[..], old(current)) ==>
        !active && current == old(current) && tally == Record(old(tally), Won(old(current)))
      // No line and no empty cell left: a draw.
      ensures old(active) && old(board[index]) == Empty && !Wins(board[..], old(current)) && Full(board[..]) ==>
        !active && current == old(current) && tally == Record(old(tally), Draw)
      // Otherwise the turn passes to the other player.
      ensures old(active) && old(board[index]) == Empty && !Wins(board[..], old(current)) && !Full(board[..]) ==>
        active && current == Other(old(current)) && tally == old(tally)
      // Legal play keeps the position consistent; the player not moving never wins.
      ensures old(Consistent()) ==> Consistent()
      ensures old(Consistent()) && old(active) ==> !Wins(board[..], Other(old(current)))
    {
      if !active || board[index] != Empty {
        return;
      }
      ghost var before: Board := board[..];
      board[index] := Mark(current);
      assert board[..] == before[index := Mark(current)];
      if InPlay(before, current) {
        MoveKeepsInPlay(before, current, index);
      }
      if Wins(board[..], current) {
        EndGame(Won(current));
      } else if Full(board[..]) {
        EndGame(Draw);
      } else {
        current := Other(current);
      }
    }

    /** The game-state part of `resetGame`: the array is cleared in place, X moves
        first and the game is active; the counters are kept. */
    method Reset()
      requires Valid()
      modifies this, board
      ensures Valid() && board == old(board) && tally == old(tally) && Consistent()
      ensures board[..] == Blank && current == X && active
    {
      forall i | 0 <= i < 9 {
        board[i] := Empty;
      }
      current := X;
      active := true;
      assert board[..] == Blank;
      ResetInPlay();
    }

    /** `minimax(state, depth, isMaximizingPlayer)`: marks each empty cell of `state`
        for the side to move, recurses, and undoes the mark. Its win tests read the
        game's own `board`, as `checkWin` does. */
    method Minimax(state: array<Cell>, depth: nat, maximizing: bool) returns (score: int)
      requires Valid() && state.Length == 9 && state != board
      modifies state
      ensures state[..] == old(state[..])
      ensures score == Evaluate(board[..], old(state[..]), depth, maximizing)
      decreases Count(state[..], Empty)
    {
      if Wins(board[..], O) {
        return 10 - depth;
      }
      if Wins(board[..], X) {
        return depth - 10;
      }
      if Full(state[..]) {
        return 0;
      }
      ghost var s0: Board := state[..];
      score := if maximizing then -11 else 11;
      var i := 0;
      while i < 9
        invariant 0 <= i <= 9
        invariant state[..] == s0
        invariant EvaluateFrom(board[..], s0, depth, maximizing, i, score) == Evaluate(board[..], s0, depth, maximizing)
      {
        if state[i] == Empty {
          state[i] := Mark(Mover(maximizing));
          assert state[..] == s0[i := Mark(Mover(maximizing))];
          PlaceDecreasesEmpty(s0, i, Mover(maximizing));
          var e := Minimax(state, depth + 1, !maximizing);
          state[i] := Empty;
          assert state[..] == s0;
          score := if maximizing then Max(score, e) else Min(score, e);
        }
        i := i + 1;
      }
    }

    /** `getBestMove()`: tries O in each empty cell of the live board, scores the
        copy with `minimax`, undoes the mark and keeps the first strictly better
        score. The board is as before on return. */
    method GetBestMove() returns (move: Option<Index>)
      requires Valid()
      modifies board
      ensures board[..] == old(board[..])
      ensures move == BestMove(old(board[..]))
    {
      ghost var b0: Board := board[..];
      var bestScore := -11;
      move := None;
      var i := 0;
      while i < 9
        invariant 0 <= i <= 9
        invariant board[..] == b0
        invariant BestFrom(b0, Scores(b0), i, bestScore, move) == BestMove(b0)
      {
        if board[i] == Empty {
          board[i] := Mark(O);
          var copy := new Cell[9];
          forall j | 0 <= j < 9 {
            copy[j] := board[j];
          }
          assert copy[..] == board[..] == b0[i := Mark(O)];
          var score := Minimax(copy, 0, false);
          board[i] := Empty;
          assert board[..] == b0;
          if score > bestScore {
            bestScore := score;
            move := Some(i);
          }
        }
        i := i + 1;
      }
    }

    /** The computer's turn, O to move in an active game: `getRandomMove` with the
        given draw in easy mode, `getBestMove` otherwise, then `makeMove` on the
        chosen cell. */
    method AiTurn(easy: bool, draw: nat) returns (move: Index)
      requires Valid() && Consistent() && active && current == O
      requires easy ==> draw < |EmptyCells(board[..])|
      modifies this, board
      ensures Valid() && board == old(board) && Consistent()
      ensures easy ==> RandomMove(old(board[..]), draw) == Some(move)
      ensures !easy ==> BestMove(old(board[..])) == Some(move)
      ensures old(board[..])[move] == Empty && board[..] == old(board[..])[move := Mark(O)]
      ensures !Wins(board[..], X)
      ensures Wins(board[..], O) ==> !active && current == O && tally == Record(old(tally), Won(O))
      ensures !Wins(board[..], O) && Full(board[..]) ==> !active && current == O && tally == Record(old(tally), Draw)
      ensures !Wins(board[..], O) && !Full(board[..]) ==> active && current == X && tally == old(tally)
    {
      var choice: Option<Index>;
      if easy {
        choice := RandomMove(board[..], draw);
      } else {
        choice := GetBestMove();
        BestMoveAsWritten(board[..]);
      }
      move := choice.value;
      MakeMove(move);
    }
  }
}
