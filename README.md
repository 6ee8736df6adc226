# Tic-tac-toe against a minimax computer, in Dafny

This project models the game engine inside the `TicTacToe` React component
(`tic_tac_toe/src/App.jsx`). A human player (the light-blue heart) plays
against the computer (the pink heart) on a 9-cell board. The engine has
four parts:

- the winner check (`checkWinner`): it scans the eight lines (three rows,
  three columns, two diagonals) in a fixed order and returns the mark of
  the first filled line, or `null`;
- the minimax search (`minimax`): it scores a board at a depth. A computer
  line scores `10 - depth`, a player line `depth - 10` and a full board 0.
  Any other board scores the maximum (computer to move) or minimum (player
  to move) of its moves one level deeper. Each move is probed in place: the
  mark is written, the search recurses, and the cell is reset to `null`;
- the computer's move (`computerPlay`): it probes every empty cell of a
  copy of the board. It keeps the first cell whose score is strictly
  greater than the best so far, then commits the computer's mark there and
  hands the turn back to the player;
- the session: the `board`, `isXNext` and `gameOver` state, the player's
  click (`handleClick`), the effect that ends the game or lets the computer
  move, and `resetGame`.

The modules follow these parts:

- `Rules` (rules.dfy) holds the cells, the board, the line table, `Winner`,
  `IsFull` and the game-over rule `Finished`.
- `Search` (search.dfy) holds the specification of the search. `Score` and
  `Best` give the minimax value, `Scan` and `ChooseMove` the computer's
  pick. It also holds the lemmas about them and the in-place `Minimax`
  method, which is proved against `Score`.
- `Game` (game.dfy) holds the session as the class `TicTacToe`. Its methods
  change the session's fields, and its `ComputerPlay` method probes an
  `array` copy of the board in place.

JavaScript's `-Infinity` and `Infinity` seeds are modelled by the datatype
`Extended`, with `Math.max`, `Math.min` and `>` written out on it. The
lemmas show that no infinity is ever returned: `Minimax` returns an `int`.

The code ignores whose turn it is when the player clicks. `handleClick`
only checks that the cell is empty, that no line is filled and that the
game is not over. The model keeps that guard as written.

## Model

| member | source | states |
|---|---|---|
| `Rules.WinnerFrom` | tic_tac_toe/src/App.jsx:77-82 | The scan from line `k` on returns a mark exactly when some line from `k` on holds three equal non-empty cells. The mark it returns is the one that fills the first such line. |
| `Rules.Winner` | tic_tac_toe/src/App.jsx:71-83 | The result is non-empty exactly when the player or the computer fills one of the eight lines. A non-empty result is a mark that fills a line, namely the first filled line in scan order. |
| `Search.Greater` | tic_tac_toe/src/App.jsx:58 | `>` with infinities: it holds exactly when the first value is not at most the second. |
| `Search.Max` | tic_tac_toe/src/App.jsx:32 | `Math.max` returns one of its arguments, and the result is at least both. |
| `Search.Min` | tic_tac_toe/src/App.jsx:43 | `Math.min` returns one of its arguments, and the result is at most both. |
| `Search.Best` | tic_tac_toe/src/App.jsx:25-47 | The loop's best score is finite exactly when some visited cell is empty. The maximizer's score is never `+Infinity` and the minimizer's never `-Infinity`. |
| `Search.ScoreRange` | tic_tac_toe/src/App.jsx:19-47 | Every score is 0, or `10 - d` or `d - 10` for some terminal depth `d` between the current depth and the depth at which the board is full. |
| `Search.ScoreBounds` | tic_tac_toe/src/App.jsx:20-47 | When play ends by move 9, the score lies in `[depth - 10, 10 - depth]`. It equals `10 - depth` exactly when the computer has a line, and `depth - 10` exactly when the player has one. |
| `Search.TerminalScores` | tic_tac_toe/src/App.jsx:20-23 | If only the computer holds a line, the score is `10 - depth`, even on a full board. If only the player does, it is `depth - 10`. A full board without a line scores 0. |
| `Search.ScoreIsOptimal` | tic_tac_toe/src/App.jsx:25-47 | On a board with no line and an empty cell, some empty cell's score one level deeper equals the score. No empty cell scores above it (computer to move) or below it (player to move). |
| `Search.Minimax` | tic_tac_toe/src/App.jsx:19-48 | The in-place search returns `Score` of the board it was given and leaves the array exactly as it found it. |
| `Search.Scan` | tic_tac_toe/src/App.jsx:50-63 | After visiting cells `0 .. n-1`, a move is kept exactly when one of them is empty. The kept cell is empty and its score is the best score; with no move the best score is `-Infinity`. |
| `Search.ScanIsFirstArgmax` | tic_tac_toe/src/App.jsx:53-63 | Because only a strictly greater score replaces the pick, no visited empty cell scores more than the kept cell. Every empty cell before it scores strictly less. |
| `Search.ChooseMove` | tic_tac_toe/src/App.jsx:50-63 | The computer's pick exists exactly when the board is not full. It is the lowest-index empty cell of maximal probe score. |
| `Search.ProbeBounds` | tic_tac_toe/src/App.jsx:21-23 | Every probe score seen by the move scan lies in `[-10, 10]`. It is 10 exactly when the probed cell completes a computer line. |
| `Search.ChooseMoveTakesWin` | tic_tac_toe/src/App.jsx:53-63 | If some empty cell completes a computer line, the chosen cell scores 10 and completes a computer line too. |
| `Search.ChooseMoveTakesOnlyWin` | tic_tac_toe/src/App.jsx:53-63 | If exactly one empty cell completes a computer line, the computer plays there. |
| `Search.CompletesRowOverBlocking` | tic_tac_toe/src/App.jsx:53-63 | Take the board with player marks in cells 0 and 1, computer marks in cells 3 and 4, and the rest empty. The computer plays cell 5, completing its row, rather than block at cell 2. |
| `Game.TicTacToe.constructor` | tic_tac_toe/src/App.jsx:5-7 | A new session has an empty board, the player to move and the game not over. |
| `Game.TicTacToe.HandleClick` | tic_tac_toe/src/App.jsx:9-16 | A click on an occupied cell, on a board with a line, or after the game is over changes nothing. Otherwise the player's mark goes into exactly that cell, nothing else on the board changes, and the computer moves next. |
| `Game.TicTacToe.ComputerPlay` | tic_tac_toe/src/App.jsx:50-69 | On a full copy nothing changes. Otherwise the computer's mark goes into the cell `ChooseMove` picks, which was empty, and every other cell keeps its value. The copy becomes the board and the player moves next. |
| `Game.TicTacToe.Settle` | tic_tac_toe/src/App.jsx:85-94 | A finished board (a line or no empty cell) sets the game over and changes nothing else. On an unfinished board with the computer to move, the computer plays `ChooseMove`'s cell and the player moves next. Otherwise nothing changes. The game-over flag is only raised on a finished board. |
| `Game.TicTacToe.ResetGame` | tic_tac_toe/src/App.jsx:96-100 | Reset gives an empty board, the player to move and the game not over. |

## Left out

- Rendering (the JSX, the CSS import and the status text, lines 102-120) is presentation only.
- React's `useState` and `useEffect` plumbing is replaced by the fields of `Game.TicTacToe` and an explicit `Settle` call.
- The 500 ms `setTimeout` before the computer moves is left out: `Settle` runs the computer's move at once. Interleavings of clicks with a pending timer are not modelled, including a stale board copy committed after a second click.
- Numbers are modelled as unbounded integers plus the two infinities. Floating point is not modelled; only whole scores ever arise.
- A full "the computer never loses" theorem is not stated. It would need an exhaustive proof over the game tree, and the code does not promise it.
- The computer's first move on an empty board is not stated. It would need the whole game tree evaluated by the verifier.
- Winner: a board on which both marks fill a line cannot arise in alternating play. The model does not exclude it and, like the code, returns the mark of the first filled line.
- ScoreBounds: this lemma assumes `depth + EmptyCount(b) <= 9`. Every call the code makes meets it, because the computer's scan probes at depth 0 a board with at most 8 empty cells. Without it, `10 - depth` can go negative and the bound no longer holds.
