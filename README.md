# Tic-tac-toe game logic in Dafny

This project models the game logic of a React tic-tac-toe app (`src/App.js`), taken out of its components:

- The winner evaluation `calculateWinner`. It scans eight fixed index triples in a fixed order and reports the first one uniformly held by one mark.
- The `Board` component's `handleClick`. It ignores a click on a filled square or on a won board. Otherwise it copies the nine squares and writes "X" or "O" by turn.
- The `Board` component's status line and winning-square highlight.
- The `Game` component's state: the snapshot `history`, the cursor `currentMove` and the `isDescending` flag. Also its operations `handlePlay` (truncate at the cursor, append, move the cursor to the end) and `jumpToMove` (move only the cursor).
- The move list: each entry is labelled with the row and column of the first square where two consecutive snapshots differ, and the whole list is reversed in descending mode.

Modules follow the program's parts:

- `Boards` (`Boards.dfy`): cells, boards, the eight lines, `calculateWinner` as a loop proved equal to a first-match search function.
- `BoardView` (`BoardView.dfy`): the click, status and highlight logic of `Board`.
- `Timeline` (`Timeline.dfy`): histories as values. It defines which histories the game can build ("legal" histories: from the empty board, one legal click per snapshot, X first), proves what holds along them, and defines the first-difference label search and the displayed order.
- `GameState` (`GameState.dfy`): the `Game` class, whose fields the methods reassign.
- `Scenarios` (`Scenarios.dfy`): concrete examples and client code. A top-row win as a legal history, a drawn full board, one move that completes two lines, move labels, branching after a jump, and sort toggling on any game.

JavaScript `null`, `"X"` and `"O"` are the `Cell` values `Empty`, `X` and `O`. A square is truthy exactly when it is not `Empty`. The clicked index is an `Index` (0..8), because the board only renders indices `row * 3 + col` for row and column in 0..2. A jump target is required to be below `|history|`, because the list only offers existing moves.

Notes on what the code does at its edges:

- An out-of-range click index has no guard in the code. The model makes it a precondition.
- The label is the first index where the snapshots differ. The code does not check that exactly one index differs. When no index differs, the code's row and column are NaN; the model names that case `Position.Unknown`.
- A board with no winner can gain two lines in one move (`Scenarios.DoubleLineOnFullBoard`), so a board can have several winning lines. What does hold is that every winning line on a board of a legal history has the last mover's mark (`Timeline.WinningLineIsLastMover`). So the scan order only decides which triple is highlighted, never which player wins.

## Model

| member | source | states |
|---|---|---|
| `Boards.WinnerFrom` | src/App.js:144-164 | The scan from line `k` reports nothing exactly when no later line is uniformly occupied. Otherwise it reports a listed line that is uniformly held by the reported mark, and no earlier line from `k` on wins. |
| `Boards.CalculateWinner` | src/App.js:156-163 | The loop with early return computes exactly the first-match result `Winner(squares)`. |
| `Boards.WinnerSound` | src/App.js:157-159 | A reported winner's triple is one of the eight lines, and all three of its squares hold the reported mark, which is not empty. |
| `Boards.WinnerFirst` | src/App.js:145-161 | If any line wins, a winner is reported, and its line comes no later than that line in the order rows, columns, diagonals. |
| `Boards.WinnerNoneIff` | src/App.js:163 | No winner is reported exactly when no listed line is uniformly occupied. |
| `BoardView.Mark` | src/App.js:14-18 | The mark written is never empty, and it is X exactly when X is next. |
| `BoardView.Click` | src/App.js:9-21 | A click is ignored exactly when the square is filled or the board already has a winner. Otherwise the new board holds the mover's mark at `i` and equals the old board at every other index. |
| `BoardView.HandleClick` | src/App.js:9-21 | Copying the squares into a fresh nine-cell array and writing one slot yields exactly `Click`'s result, with `None` for an ignored click. |
| `BoardView.ClickCounts` | src/App.js:13-18 | A legal click adds one mark of the mover, leaves the other player's count alone and removes one empty square. |
| `BoardView.StatusOf` | src/App.js:23-31 | The status is a win exactly when a winner exists, even on a full board, with the winner's mark. It is a draw exactly when there is no winner and no empty square. Otherwise it names the next player by `xIsNext`. |
| `BoardView.HighlightedHoldWinningMark` | src/App.js:47 | Covers `BoardView.Highlight`. No square is highlighted without a winner. A highlighted square lies on one of the eight lines, that line is filled by the winning mark, and the square holds that non-empty mark. |
| `Timeline.LegalPlay` | src/App.js:68-72 | Truncating a legal history after the cursor and appending a legal click on the current board gives a legal history. |
| `Timeline.LegalCounts` | src/App.js:63 | Along a legal history, snapshot `k` holds (k+1)/2 X marks, k/2 O marks and 9-k empty squares. So the parity of `currentMove` alternates the marks X, O, X, ... |
| `Timeline.LegalLength` | src/App.js:68-72 | A legal history has at most ten snapshots. |
| `Timeline.TurnMatchesMarks` | src/App.js:63 | On a legal history the parity rule names X exactly when both players have placed equally many marks. |
| `Timeline.FullExactlyAtNine` | src/App.js:27 | On a legal history the board has no empty square exactly at move nine. |
| `Timeline.WinningLineIsLastMover` | src/App.js:10-12 | On a legal history every winning line of snapshot `k` holds the mark of the player who made move `k`. The start has no winning line. |
| `Timeline.WinnerIsLastMover` | src/App.js:23-26 | On a legal history the reported winner is the player who made the last move. |
| `Timeline.NoMoveAfterWin` | src/App.js:10-12 | On a legal history no snapshot with a successor has a winner, so a won board is always the last one. |
| `Timeline.StatusOfLegalSnapshot` | src/App.js:23-31 | Along a legal history a win is the last mover's, "Draw" appears only at move nine, and the next player is X exactly when the mark counts are equal. |
| `Timeline.FirstDifferenceFrom` | src/App.js:85-91 | The search from `k` finds nothing exactly when the snapshots agree from `k` on. Otherwise it returns an index where they differ, and they agree on every index before it from `k` on. |
| `Timeline.FindFirstDifference` | src/App.js:84-91 | The `for` loop with `break` computes exactly the first differing index, or none. |
| `Timeline.DifferenceOfClick` | src/App.js:13-18 | The first difference between a board and its legal successor is the clicked square. |
| `Timeline.Coordinates` | src/App.js:93-94 | The row and column are both below 3, and `3 * row + col` gives back the index (the inverse of `row * 3 + col` at src/App.js:39). |
| `Timeline.EntryFor` | src/App.js:78-113 | An entry is current exactly at the cursor. Only the start has no position. The position is unknown exactly when the two snapshots are equal. Otherwise the position is the row and column (`Coordinates`, both in 0..2) of the first index where the snapshots differ. |
| `Timeline.Entries` | src/App.js:78 | The list has one entry per snapshot, and entry `m` is the entry built from snapshot `m` and its predecessor. |
| `Timeline.LabelIsPlayedSquare` | src/App.js:80-95 | On a legal history, every entry after the start is labelled with the row and column of the square played at that move. |
| `Timeline.ReverseAt` | src/App.js:116-118 | Covers `Timeline.Reverse`. Reversal keeps the length, and element `k` of the reversal is element `len-1-k` of the original. |
| `Timeline.DisplayedAt` | src/App.js:116-118 | Covers `Timeline.Displayed`. In descending mode the shown entry `k` is ascending entry `len-1-k`; otherwise it is entry `k`. The length is unchanged. |
| `GameState.Game.constructor` | src/App.js:61-66 | A new game holds only the empty board, has the cursor at 0 and the list ascending, and its history is legal. |
| `GameState.Game.XIsNextMatchesBoard` | src/App.js:63-64 | Covers `GameState.Game.XIsNext` and `GameState.Game.CurrentSquares`. On a legal history, `xIsNext` (even cursor) holds exactly when the board on display has as many X marks as O marks. |
| `GameState.Game.HandlePlay` | src/App.js:68-72 | The new history is the old one up to the cursor followed by the new board. The cursor moves one past its old value, onto the last snapshot. The sort flag is unchanged. |
| `GameState.Game.JumpToMove` | src/App.js:74-76 | Only the cursor changes, to the requested move. The history and the flag are untouched. |
| `GameState.Game.SetDescending` | src/App.js:131-133 | The flag takes the checkbox value. The history and the cursor are untouched. |
| `GameState.Game.ClickSquare` | src/App.js:9-21 | An ignored click changes nothing. A legal click truncates at the cursor, appends the clicked board, advances the cursor by one and flips the turn. A legal history stays legal. |
| `GameState.Game.MoveList` | src/App.js:78-118 | The list built by the loop is exactly the per-snapshot entries, reversed when the descending flag is set. |
| `Scenarios.TopRowSteps` | src/App.js:9-21 | Each snapshot of the game with moves 0, 4, 1, 7, 2 is a legal click on its predecessor, X first. |
| `Scenarios.FiveLegalClicks` | src/App.js:68-72 | Five legal clicks in a row from the empty board, X first, form a legal history. |
| `Scenarios.TopRowGameIsLegal` | src/App.js:9-21 | The moves 0, 4, 1, 7, 2 from the empty board form a legal history. |
| `Scenarios.TopRowWin` | src/App.js:23-26 | That game ends with X winning on the top row, and a further click is ignored. |
| `Scenarios.FullBoardDraw` | src/App.js:27-28 | A full board with no line reads "Draw". |
| `Scenarios.CenterThenCornerLabels` | src/App.js:80-95 | After X takes the centre and O the top-left corner, the entries are the start, move 1 at (1, 1) and the current move 2 at (0, 0). |
| `Scenarios.DoubleLineOnFullBoard` | src/App.js:156-161 | One move completes the top row and the anti-diagonal on a full board. The top row is reported, because rows are scanned first, and the status is a win rather than a draw. |

## Left out

- Rendering is not modelled: JSX, the `Square` component, CSS class strings and the list markup (src/App.js:3-5, 33-54, 120-140). It is presentational.
- React `useState` hooks and re-rendering are not modelled (src/App.js:61-66). The three pieces of state are plain fields of `Game`, and every derived view is a function of them.
- The exact label strings are not modelled (src/App.js:97-109). `Entry` keeps their content: the move number, whether it is the current move (plain text) or a jump button, and the start / (row, col) case split.
- The exact status strings are not modelled (src/App.js:23-31). `Status` keeps their content: the winner's mark, a draw, or the next player's mark.
- The checkbox event object is not modelled (src/App.js:131-133). `SetDescending` takes the boolean directly.
- Out-of-range click indices and jump targets are preconditions, not behaviour. The code has no guards for them: past index 8, `squares[i]` is `undefined` and the copy would grow.
- `moves.reverse()` reverses the list array in place. The model reverses a value with `Reverse`. The list is a fresh local array, so no aliasing is lost.
- Legality of the history is promised only for histories grown through `ClickSquare`. `handlePlay` itself accepts any nine-cell board, as in the code.
