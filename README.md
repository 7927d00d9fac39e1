# Tic-tac-toe game state and rules

A Dafny model of the rules engine behind the tic-tac-toe widget of
`src/index.js`: the winner search over the eight lines of a 3x3 board, the
game state kept by the `Game` component (the list of recorded steps, the
step on display and the stored `xIsNext` flag), its click handler, its
time-travel handler, and the status line shown above the move list.

Two modules, one per layer of the widget:

- `TicTacToeRules` (`rules.dfy`): marks, squares, boards as nine-element
  sequences, the eight winning lines in search order, the winner search
  (a specification function `OutcomeOf` and the widget's loop
  `CalculateWinner`, proved equal), the column/row mapping of a square,
  and the status of a board with its display text.
- `TicTacToeGame` (`game.dfy`): the history entry `Step`, the predicate
  `WellFormed` describing every history the handlers can build, lemmas about
  such histories, and the class `Game` whose methods `HandleClick` and
  `JumpTo` update `history`, `stepNumber` and `xIsNext` in place. Three client
  methods (`OpeningGame`, `TopRowGame`, `TimeTravelAfterWin`) replay a game
  in which X takes the top row, a later click is refused, and a click after
  going back to step 1 drops the recorded future.

The object invariant `Game.Valid()` says that the history is well formed
(it starts with the empty board, and every later entry is the board before
it with one more mark, placed by the player whose turn it was, on a square
that was empty while no line was complete), that `stepNumber` indexes an
entry, and that `xIsNext` is true exactly when `stepNumber` is even. Every
handler keeps it.

The code checks neither the step passed to `jumpTo` nor the square index
passed to `handleClick`; the model states both as preconditions (see "Left
out"). The code stores `xIsNext`; the model stores it too and proves it
always equals the parity of `stepNumber`.

## Model

| member | source | states |
|---|---|---|
| `TicTacToeRules.FirstLine` | src/index.js:152-157 | the search from position k returns the first position whose line is complete, or 8 when none is; every line it passes over is not complete |
| `TicTacToeRules.OutcomeOf` | src/index.js:141-159 | a winner is reported exactly when some line is complete; the reported line is one of the eight lines, is complete, and the reported mark is the mark on it |
| `TicTacToeRules.OutcomeIsFirstLine` | src/index.js:142-157 | when line j is complete and no earlier line in the order rows, columns, diagonals is, the result is line j with its mark |
| `TicTacToeRules.CalculateWinner` | src/index.js:141-159 | the early-return loop over the lines computes exactly `OutcomeOf`; it reports no winner (`[null, null]`) exactly when no line is complete |
| `TicTacToeRules.Coordinates` | src/index.js:67-68 | for a square 0..8, `col = i % 3` and `row = (i - col) / 3` both lie in 0..2 and `row * 3 + col == i` |
| `TicTacToeRules.CoordinatesRoundTrip` | src/index.js:67-68 | the column/row mapping and the row-major square index are inverse to each other |
| `TicTacToeRules.Legal` | src/index.js:63 | a click on square i is accepted exactly when no line is complete on the board and square i is empty: the negation of the refusal guard (a reported winner, or an occupied square) |
| `TicTacToeRules.Full` | src/index.js:111 | `every(x => x)`: every square holds a mark, which is exactly when the number of empty squares is zero |
| `TicTacToeRules.Status.Text` | src/index.js:106-113 | the text starts with "Winner: " exactly for a winner, with "Next player: " exactly for a next player, is "Draw" exactly for a draw, and otherwise ends with the named mark |
| `TicTacToeRules.Place` | src/index.js:62-66 | the new board holds the mover's mark in square i and equals the old board everywhere else |
| `TicTacToeRules.StatusOf` | src/index.js:106-113 | "Winner" exactly when a line is complete, naming the search's mark; "Draw" exactly when no line is complete and every square is filled; a next player is always the one `xIsNext` names |
| `TicTacToeRules.StatusNextIffMoveAvailable` | src/index.js:59-113 | the status names a next player exactly when some square would accept a click; after a win or a draw every click is refused |
| `TicTacToeRules.StatusTextDistinct` | src/index.js:108-112 | the three status texts "Winner: m", "Draw", "Next player: m" never coincide for different statuses |
| `TicTacToeGame.StepCounts` | src/index.js:59-78 | in a history built by the click handler, the board of step k has 9 - k empty squares, (k + 1) / 2 X's and k / 2 O's |
| `TicTacToeGame.HistoryAtMostTen` | src/index.js:59-78 | a history never has more than ten entries |
| `TicTacToeGame.FullExactlyAtNine` | src/index.js:111 | the board of step k is full exactly when k is 9, so a draw can only be shown at step 9 |
| `TicTacToeGame.WinOnlyAtEnd` | src/index.js:63-65 | no move is recorded after a board with a winner: only the last entry of a history can have one |
| `TicTacToeGame.TruncateAppend` | src/index.js:60-75 | dropping the entries after the step on display and appending a legal move of the player to move keeps the history well formed |
| `TicTacToeGame.WinnerIsLastMover` | src/index.js:63-66 | on a recorded board every complete line holds the mark of the player who moved last, so the winning mark never depends on the search order |
| `TicTacToeGame.NoWinnerBeforeFive` | src/index.js:63-66 | no line is complete on the boards of steps 0 to 4 |
| `TicTacToeGame.Game.constructor` | src/index.js:44-57 | a new game holds only the empty board with no coordinates, shows step 0, and X moves first |
| `TicTacToeGame.Game.Current` | src/index.js:91 | the entry on display is `history[stepNumber]` |
| `TicTacToeGame.Game.Status` | src/index.js:106-113 | the status of the displayed board names a next player exactly when a click can be accepted, that player is the one whose turn the step's parity gives, and a draw is shown only at step 9 |
| `TicTacToeGame.Game.HandleClick` | src/index.js:59-79 | when the displayed board has no winner and square i is empty: the history becomes its first `stepNumber + 1` entries plus one new entry holding a copy of the board with `X` or `O` (as `xIsNext` says) in square i and the square's column and row, `stepNumber` grows by one and `xIsNext` flips; otherwise history, `stepNumber` and `xIsNext` are unchanged; the invariant holds after either |
| `TicTacToeGame.Game.JumpTo` | src/index.js:81-87 | the history is unchanged, `stepNumber` becomes the step, `xIsNext` is recomputed from its parity, the displayed entry is `history[step]`, and the invariant holds |

## Left out

- The `Square` and `Board` components, the JSX of `Game.render`, the move
  list with its labels and buttons, the React root and the stylesheet: these
  only render the state.
- The `ascendingMoves` toggle with `moves.reverse()`, and the `jumping`
  field used to bold the selected entry: display-only state that no rule
  reads.
- `setState` scheduling and batching: each handler is one synchronous
  transition of the `Game` object.
- `Game.HandleClick` requires a square index 0..8. The code does not check
  it; the board only ever passes such an index.
- `Game.JumpTo` requires a step inside the history. The code does not check
  it; it is only called from the entries of the move list, and a step
  outside the history would make rendering fail.
- Boards are values: the copy made with `slice()` is modelled as a fresh
  array filled from the displayed board, so earlier entries can never be
  aliased by the write; sharing of the same array between entries is not
  modelled.
- JavaScript truthiness is modelled by the `Cell` datatype: `null` is
  `Empty`, and `'X'`/`'O'` are `Filled(X)`/`Filled(O)`; boards holding any
  other value cannot be represented.
