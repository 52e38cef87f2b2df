# Tic-tac-toe with time travel, in Dafny

A model of the browser tic-tac-toe game in `src/index.js`:

- the win check `calculateWinner`;
- the `Game` component with its four state fields and its three handlers:
  a click on a square, a click on the order button, and a jump back to an
  earlier move;
- what the game renders: the status line, the move list with its bold
  entry and its order button, and the 3x3 grid with the winning line
  highlighted.

Modules:

- `Options` (`options.dfy`): the optional value, `null` in the game.
- `Cells` (`cells.dfy`): the marks, the squares and the nine-square board.
  It also holds the `x + 3*y` numbering of the grid and its inverse
  `(i % 3, i / 3)`, which a move description prints.
- `WinDetection` (`win_detection.dfy`):
  - the eight-line table;
  - the specification `Winner` of what `calculateWinner` reports;
  - `CalculateWinner`, the search loop with its early return, proved
    equal to `Winner`.
- `History` (`history.dfy`):
  - the game's state as a value, with its transitions `Click`, `JumpTo`
    and `ToggleOrder`;
  - the invariant `Valid` those transitions keep. Its core is
    `LegalHistory`: every history entry is the previous one with one more
    square marked, by alternating players starting with X, on a board
    without a winner.
- `GameComponent` (`game.dfy`): the `Game` class. Its fields are updated in
  place by its handlers, and each handler is proved to move the fields
  exactly as the matching `History` transition does.
- `View` (`view.dfy`):
  - the status line, the move list and the order button, as functions of
    the state;
  - `RenderMoveList`, which builds the list in an array and reverses it
    in place (`moves.reverse()`), as the game does;
  - the grid of squares.

## Model

| member | source | states |
|---|---|---|
| Cells.ColumnRowIndex | src/index.js:54 | the column `i % 3` and row `i / 3` of square `i` give back square `i` under the grid numbering `x + 3*y` |
| Cells.CellIndexColumnRow | src/index.js:54 | the square drawn in column `x` of row `y` has column `x` and row `y`, so no two grid cells show the same square |
| Cells.CountUpdate | src/index.js:89 | writing one square moves exactly one square from the count of its old content to the count of its new content |
| WinDetection.FirstWin | src/index.js:16-21 | the first completed line at or after table position `k`: it is completed, and no line between `k` and it is |
| WinDetection.Winner | src/index.js:5-23 | a reported line is completed; nothing (`null`) is reported exactly when none of the eight lines is completed |
| WinDetection.WinnerIsFirstMatch | src/index.js:16-20 | when several lines are completed, the first one in table order is reported |
| WinDetection.WinnerIsTableLine | src/index.js:6-19 | a reported line is a line of the table, and every line before it is not completed |
| WinDetection.CalculateWinner | src/index.js:5-23 | the loop over the table with its early return reports exactly `Winner` of the board |
| WinDetection.WinnerHoldsOneMark | src/index.js:18 | the three squares of the reported line hold the same mark |
| WinDetection.WinPersists | src/index.js:18 | marking an empty square of a board that has a winner leaves a winner: a completed line stays completed when more squares are marked |
| History.Describe | src/index.js:88 | the description of a move on square `i` has column and row below 3, and they name square `i` again |
| History.PlayMarksOneSquare | src/index.js:82-93 | the new snapshot is a copy of the board with only square `i` changed, and `i` holds the mover's mark; its description is that mark at `(i % 3, i / 3)` |
| History.PlayFollows | src/index.js:84-93 | a move onto an empty square of a board without a winner is a legal next history entry |
| History.ExtendLegal | src/index.js:80-95 | cutting a legal history after the cursor and appending a legal successor keeps the history legal |
| History.AcceptedValid | src/index.js:87-96 | an accepted click leads to a state that keeps the game's invariant |
| History.AcceptedLegal | src/index.js:80-94 | cutting after entry `n` and appending the mark of the player of parity `n` on an empty square of a winnerless board gives a legal history |
| History.Initial | src/index.js:66-77 | the constructor's state: one empty board, cursor 0, X to move, ascending order; it satisfies the invariant |
| History.Click | src/index.js:79-98 | the click keeps the invariant; the state is unchanged exactly when the board under the cursor has a winner or the square is taken; otherwise the history is cut after the cursor and extended by the marked copy, the cursor moves onto the new last entry and the turn passes |
| History.JumpTo | src/index.js:106-111 | the jump keeps the invariant, moves the cursor to `step` and leaves the history and the order alone |
| History.ToggleOrder | src/index.js:100-104 | only the order flag flips, so the invariant holds after exactly when it held before |
| History.ToggleTwice | src/index.js:100-104 | toggling the order twice gives back the state |
| History.ClickIdempotent | src/index.js:84-86 | a second click on the same square changes nothing |
| History.JumpThenClick | src/index.js:80-95 | a move made after jumping back to `step` discards every entry after `step`, keeping entries `0..step` |
| History.MarkCounts | src/index.js:87-96 | history entry `k` holds `(k+1)/2` X's and `k/2` O's: players alternate, X first, one mark per move |
| History.CountEmptyBoard | src/index.js:70 | the starting board holds no X and no O |
| History.HistoryBounded | src/index.js:84-94 | a history never holds more than ten entries |
| History.Run | src/index.js:79-98 | clicking a sequence of squares in turn keeps the invariant |
| History.RunLength | src/index.js:91-95 | `n` accepted moves made at the end of the history add `n` entries and leave the cursor on the last one |
| GameComponent.Game.constructor | src/index.js:66-77 | the fields start as `Initial`: one empty board, no last move, step 0, X to move, ascending order |
| GameComponent.Game.HandleBoardClick | src/index.js:79-98 | the fields move as `Click` says: unchanged when ignored; otherwise the cut history plus the marked copy, step one past the old cursor, turn flipped, order kept |
| GameComponent.Game.HandleToggleClick | src/index.js:100-104 | the fields move as `ToggleOrder` says: only the order flag flips, and the invariant is kept |
| GameComponent.Game.JumpTo | src/index.js:106-111 | the fields move as `JumpTo` says: cursor at `step`, X to move iff `step` is even, history and order kept |
| View.StatusOf | src/index.js:132-137 | a winner is shown exactly when the board under the cursor has a winning line, and it is the mark on all three of its squares; otherwise the player whose turn the cursor's parity gives |
| View.NextPlayerAgreesWithBoard | src/index.js:136 | the player shown as next is X exactly when the board shows as many X's as O's |
| View.Entries | src/index.js:118-127 | one button per history entry |
| View.Reversed | src/index.js:129 | position `k` of the reversed list holds position `n-1-k` of the list |
| View.ReversedTwice | src/index.js:129 | reversing twice gives back the list |
| View.MoveList | src/index.js:118-130 | one button per history entry, in either order |
| View.EntryAtPlace | src/index.js:118-130 | place `p` shows entry `p` in ascending order and entry `n-1-p` in descending order |
| View.EntriesDescribeMoves | src/index.js:118-124 | every button jumps to an existing entry; only entry 0 reads `Go to game start`; entry `k` reads move `#k` with the mark of the player of parity `k-1`, at a square that was empty before and holds that mark after |
| View.BoldEntry | src/index.js:120 | exactly one button is bold: that of the last history entry, last in ascending and first in descending order |
| View.BoldIsNotTheCursor | src/index.js:120 | after one move and a jump back to the start, the bold button is not the cursor's |
| View.ToggleReversesList | src/index.js:128-130 | toggling the order shows the same buttons reversed; toggling twice restores the list |
| View.OrderButton | src/index.js:139 | the order button names the order that a click on it switches to |
| View.ReverseInPlace | src/index.js:129 | the array afterwards holds its old contents reversed |
| View.RenderMoveList | src/index.js:118-130 | the array built and possibly reversed in place equals `MoveList` of the state |
| View.BoardRows | src/index.js:51-57 | three rows of three squares |
| View.EachSquareDrawnOnce | src/index.js:51-57 | every square is drawn exactly once, at the column and row of its move description |
| View.HighlightedSquareHoldsWinningMark | src/index.js:55 | with the board's own winner, a highlighted square holds the winning mark |
| View.WinningLineHighlighted | src/index.js:55 | a square is highlighted exactly when there is a winner and the square is one of the three squares of its line; with no winner, no square is highlighted |
| View.DiagonalWin | src/index.js:5-23 | X at 0, O at 1, X at 4, O at 2, X at 8: every click is accepted and the last completes the main diagonal, which is reported |
| View.FullBoardWithoutLine | src/index.js:5-23 | a full board can have no completed line |
| View.FullBoardShowsNextPlayer | src/index.js:132-137 | there is no draw status: a full board without a winner is move nine, and the status names O as the next player |

## Left out

- React itself is not modelled: rendering JSX, mounting with `ReactDOM.render`, `setState` batching, list keys, the CSS import and the inline styles. The status line, the move captions and the order button are modelled as datatypes (`Status`, `Label`, `Order`), not as the strings the game prints.
- The state field `movesInAccendingOrder` is spelled `movesInAscendingOrder` in the class and `ascending` in the state value.
- Boards are sequences, which are values. The copy the game makes with `slice()` is therefore implicit, and no aliasing between history entries is modelled.
- History.JumpTo: `jumpTo` does not check its argument. The model requires `step < |history|`; `View.EntriesDescribeMoves` proves that every button of the move list passes such a step.
- GameComponent.Game.HandleBoardClick: the square number is typed as 0..8, because the grid only ever passes those numbers.
- The move description is column first, `(i % 3, i / 3)`, as the code prints it. It is not row first.
- The bold entry of the move list is the last history entry, as the code does. It is not the entry under the cursor.
- A full board without a winner has no status of its own, as in the code. It shows "Next player: O".
- View.DiagonalWin: states the game on boards (each board is the previous one with the clicked square marked) rather than on states built by `Click` from `Initial`. `Click`'s contract carries each board to the next state.
