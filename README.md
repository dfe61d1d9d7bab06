# Tic-Tac-Toe game engine in Dafny

This project models the game engine of `Tic-Tac-Toe.js`, a browser game of noughts and crosses. Play is human against human, or human (X) against the computer (O). The model covers:

- the module-level state `boardState`, `currentPlayer` and `gameActive`;
- the move rule `makeMove`;
- win detection: `winningCombos`, `checkWin` and `getWinningCombination`;
- how `endGame` chooses a counter;
- the state part of `resetGame`;
- the computer's two move choices: `getRandomMove`, and `getBestMove` with its `minimax` search.

The model has four modules, one per file:

- `rules.dfy` (module `Rules`) covers cells, boards, the eight lines and `checkWin`/`getWinningCombination`. It also holds the invariant that legal play keeps:
  - no line is owned;
  - a cell is still free;
  - X has played as often as O, or once more;
  - it is X's turn exactly when both have played equally often.
- `search.dfy` (module `Search`) holds `getRandomMove`, `minimax` and `getBestMove` as functions on board values, with their properties. It also holds a corrected `minimax` for the finding below.
- `game.dfy` (module `Play`) has the class `Game`. Its fields are the nine-cell `board` array, `current`, `active` and the three score counters. Its methods update them in place, as the source does:
  - `MakeMove`, `EndGame` and `Reset`;
  - the place-and-undo searches `Minimax` and `GetBestMove`;
  - the computer's turn `AiTurn`.

  Each method is proved equal to its function in `Search`, or states its whole new state.
- `scenarios.dfy` (module `Scenarios`) holds concrete positions and a short match played through the class.

`minimax` decides its terminal cases with `checkWin`. `checkWin` reads the live `boardState`, not the `state` argument being searched. The model keeps this. `Evaluate` takes the live board as a parameter `g`, and `Game.Minimax` reads the object's own `board` field. As a result:
- `minimax` returns 10 − depth, depth − 10 or 0, fixed by the live board alone.
- `getBestMove` plays the first empty cell that completes an O line. When there is none, it plays the first empty cell.

`minimax` weights its win scores by depth (10 − depth and depth − 10, Tic-Tac-Toe.js:114-115) and is handed a copy of the board to search (Tic-Tac-Toe.js:101). This shows that it is meant to look ahead on the searched position. As written it never looks past O's next move; see "## Findings".

## Model

| member | source | states |
|---|---|---|
| Play.Game.constructor | Tic-Tac-Toe.js:19-21 | The board starts as nine empty cells, X to move, the game active, the counters at zero; that position is consistent |
| Play.Game.MakeMove | Tic-Tac-Toe.js:68-80 | A move after the end or on a taken cell changes nothing. A legal move marks exactly that cell with the mover's symbol. A completed line ends the game as the mover's win even when the board is also full. Otherwise a full board is a draw. Otherwise the turn passes to the other player. Legal play keeps the position consistent, and the player not moving never owns a line |
| Play.Game.EndGame | Tic-Tac-Toe.js:146-159 | The game stops and exactly the counter chosen by the outcome (X win, O win, draw) grows by one |
| Play.Record | Tic-Tac-Toe.js:157-159 | Exactly one of the three counters grows by one: playerWins for an X win, aiWins for an O win, otherwise draws |
| Play.Game.Reset | Tic-Tac-Toe.js:180-183 | The same array is cleared to nine empty cells, X moves and the game is active; the counters are kept; the position is consistent |
| Play.Game.Minimax | Tic-Tac-Toe.js:113-128 | Returns `Evaluate` of the live board and the searched position; every trial mark is undone, so the searched array is unchanged on return |
| Play.Game.GetBestMove | Tic-Tac-Toe.js:95-110 | Returns `BestMove` of the board; the live board, marked and unmarked for each trial, is unchanged on return |
| Play.Game.AiTurn | Tic-Tac-Toe.js:81-88 | In an active consistent game with O to move, the easy move is the drawn empty cell and the hard move is `BestMove`. The chosen cell is empty and gets O, X still owns no line. A win or a draw stops the game with O still the current player and bumps that counter; otherwise the game goes on with X to move |
| Rules.WinsByLines | Tic-Tac-Toe.js:131-136 | A player has won exactly when one of the eight fixed lines (three rows, three columns, two diagonals) is entirely theirs |
| Rules.WinningCombination | Tic-Tac-Toe.js:138-143 | Returns nothing exactly when the player has not won; otherwise the first line in the fixed order that the player owns, with no earlier line owned |
| Rules.PlaceKeepsOtherWins | Tic-Tac-Toe.js:71 | Marking an empty cell for one player neither creates nor removes a line of the other player |
| Rules.ResetInPlay | Tic-Tac-Toe.js:180-183 | The reset position, with X to move, satisfies the play invariant |
| Rules.MoveKeepsInPlay | Tic-Tac-Toe.js:69-79 | From a position in play, a legal move never gives the other player a line. When it completes no line and leaves a cell free, the position is in play again with the other player to move: the counts stay balanced and the turn follows them |
| Rules.CountUpdate | Tic-Tac-Toe.js:71 | Writing one cell changes each symbol's count by exactly what was removed and what was added |
| Search.EmptyCells | Tic-Tac-Toe.js:91 | The empty cells' indices, strictly increasing, containing exactly the empty cells |
| Search.RandomMove | Tic-Tac-Toe.js:90-93 | A move is returned exactly when the draw is below the number of empty cells, and it is an empty cell; on a full board there is none |
| Search.RandomMoveCoversEmpty | Tic-Tac-Toe.js:91-92 | Every empty cell is chosen by some draw in range, and different draws choose different cells |
| Search.EvaluateAsWritten | Tic-Tac-Toe.js:113-128 | Because the wins are tested on the live board, `minimax` is 10 − depth when O owns a line there, depth − 10 when X does, and 0 otherwise, whatever position it searches |
| Search.FirstArgmax | Tic-Tac-Toe.js:96-109 | Over scores that all beat the −Infinity sentinel, the loop finds no move exactly on a full board; otherwise it returns an empty cell of maximal score, the first in index order |
| Search.BestMoveAsWritten | Tic-Tac-Toe.js:95-110 | `getBestMove` returns nothing exactly on a full board. It returns the first empty cell where O completes a line, or the first empty cell when there is none |
| Search.CorrectedLowerBound | Tic-Tac-Toe.js:114-116 | With the wins tested on the searched position, a search at a given depth scores at least depth − 10, and at least depth − 9 while X owns no line |
| Search.CorrectedUpperBound | Tic-Tac-Toe.js:114-116 | With the wins tested on the searched position, a search at a given depth scores at most 10 − depth, and at most 9 − depth while O owns no line |
| Search.CorrectedTakesWin | Tic-Tac-Toe.js:95-128 | With the corrected search, when O can complete a line it does, in the first such cell |
| Search.CorrectedBlocksThreat | Tic-Tac-Toe.js:95-128 | With the corrected search, when O cannot complete a line and X threatens exactly one cell, the computer blocks that cell |
| Scenarios.RowWin | Tic-Tac-Toe.js:131-143 | From X,X,_,O,O,_,_,_,_ with X to move, X at 2 wins, O owns no line, and the highlighted line is 0,1,2 |
| Scenarios.FullBoardDraw | Tic-Tac-Toe.js:74-77 | X,O,X,X,O,O,O,X,_ is in play with X to move (four marks each, no line). X's move at 8 fills the board and completes no line for either player: a draw |
| Scenarios.WinBeforeBlock | Tic-Tac-Toe.js:95-110 | On O,O,_,X,X,_,_,_,_ both the search as written and the corrected search play 2, O's win, rather than block X at 5 |
| Scenarios.AsWrittenMissesBlock | Tic-Tac-Toe.js:113-116 | On _,_,_,O,_,_,X,X,_ with O to move, the search as written plays 0, and X can then complete its line at 8 |
| Scenarios.CorrectedBlocksAtEight | Tic-Tac-Toe.js:113-116 | On the same position the corrected search plays 8, blocking X's line |
| Scenarios.TopRowMatch | Tic-Tac-Toe.js:68-85 | Through the class: X 0, O 3, X 1, O 4, X 2 ends the game as X's win with playerWins 1, the highlighted line is 0,1,2, and a further click changes nothing: the board, turn, counters and stopped state stay as they were |
| Scenarios.DrawMatch | Tic-Tac-Toe.js:68-77 | Through the class: from the `FullBoardDraw` position with X to move, X at 8 fills the board, ends the game as a draw and bumps only the draws counter; the board holds exactly that move |

## Findings

| source | as written | input that shows it | evidently intended | confidence | as-written member | corrected member |
|---|---|---|---|---|---|---|
| Tic-Tac-Toe.js:114-115 | `minimax` calls `checkWin`, which reads the live `boardState` rather than `state`. Every score is then 10, −10 or 0, fixed by the live board, and `getBestMove` never looks past O's own next move | Board _,_,_,O,_,_,X,X,_ with O to move: the computer plays 0, and X then completes 6-7-8 at cell 8 | The terminal tests look at the searched position, so the depth-weighted scores rank the moves. The computer then takes an immediate win and blocks a single immediate threat | high; not executed | Scenarios.AsWrittenMissesBlock | Search.CorrectedBlocksThreat |

The class `Game` plays as written, because it models the source. `CorrectedBestMove` is the drop-in replacement for `BestMove`. Its win-taking and threat-blocking are proved in `CorrectedTakesWin` and `CorrectedBlocksThreat`.

## Left out

- Rendering, screens, status text, theme and event listeners (Tic-Tac-Toe.js:1-17, 30-65, 161-177, 207, 224-232) are user interface. This includes `showScreen` clearing `gameActive` when leaving the game screen.
- `scoreManager`, `saveNames`, `loadNames`, `clearAll` and `checkModeSettings` are local storage and UI configuration. The counters are the three fields of `Tally` and start at zero; the stored values they would resume from are not modelled.
- Timers are not modelled:
  - The 500 ms `setTimeout` of `aiMove`: `AiTurn` is the delayed callback, called directly. A click landing during the delay could play O's move; that race is not modelled.
  - The 2 s highlight timer of `endGame`: `WinningCombination` gives the line that is highlighted, but the highlight itself is not modelled.
- `makeMove` scheduling the computer's turn in computer mode (Tic-Tac-Toe.js:81-83) is left to the caller, who calls `AiTurn`.
- `Math.random`: the draw is passed in as the already floored index `Math.floor(Math.random() * empty.length)`.
- The `-Infinity`/`Infinity` start values of the searches are the sentinels −11 and 11; every real score lies in [−10, 10].
- Indices outside 0..8 are excluded by the type `Index`. The user interface only ever passes 0..8. In the source, an index of 9 or more would also grow `boardState.length`, which changes what `every(Boolean)` and the `forEach` loops see. A negative index would add a property to the array instead.
- Play.Game.AiTurn requires an active, consistent game with O to move, which is the only state from which the source schedules it. Calling `makeMove` with the `undefined` that `getBestMove`/`getRandomMove` return on a full board is not modelled.
- The model keeps these behaviours of the code as they are:
  - `getBestMove` marks and unmarks the live `boardState` for each trial (Tic-Tac-Toe.js:100-102); only `minimax` gets a copy.
  - An illegal move, on an ended game or a taken cell, is dropped by the bare `return` at Tic-Tac-Toe.js:69, with no message.
  - The search never looks past O's next move (see "## Findings").
